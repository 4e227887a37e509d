/**
  The esp32s3 backend: the clock is the 32-bit CPU cycle counter (240 MHz)
  scaled to 40 MHz ticks and extended to 64 bits by a software accumulator
  `TIME` that the `CCOMPARE0` overflow interrupt (`Timer0`) advances; a
  TIMG1 general-purpose timer drives preemption; CPU interrupt 29 is the
  software-yield line; four radio interrupt lines.
 */
module TimerS3 {
  import opened Bits
  import opened Isr

  /** Nominal rate of the clock: one tick is 1/40_000_000 s. */
  const TICKS_PER_SECOND: nat := 40_000_000

  /** Rate of the CPU cycle counter the clock is derived from. */
  const CYCLES_PER_SECOND: nat := 240_000_000

  /** What one wrap of the 32-bit cycle counter adds to `TIME`:
      `0x1_0000_0000 * 40_000_000 / 240_000_000`. */
  const EPOCH_TICKS: nat := U32_RANGE * TICKS_PER_SECOND / CYCLES_PER_SECOND

  /** The compare value written to `CCOMPARE0`, so that `Timer0` fires once
      per wrap of the cycle counter. */
  const CCOMPARE_MAX: uint32 := 0xFFFF_FFFF

  /** CPU interrupt number of the software-yield line (`1 << 29`). */
  const SOFTWARE1_BIT: nat := 29

  /** Radio adapter slots read by the radio handlers. */
  const RWBLE_SLOT: nat := 5  // `ISR_INTERRUPT_5`
  const BT_BB_SLOT: nat := 8  // `ISR_INTERRUPT_8`

  /* ---------------------------- the clock ---------------------------- */

  /** The product `cycles * 40_000_000` of a 32-bit cycle count never wraps a
      `u64`, and dividing it by `240_000_000` is dividing the count by 6. */
  lemma ScaledProductFits(cycles: uint32)
    ensures cycles * TICKS_PER_SECOND < U64_RANGE
    ensures cycles * TICKS_PER_SECOND / CYCLES_PER_SECOND == cycles / 6
  {
    var q, m := cycles / 6, cycles % 6;
    assert cycles * TICKS_PER_SECOND == q * CYCLES_PER_SECOND + m * TICKS_PER_SECOND;
    assert m * TICKS_PER_SECOND < CYCLES_PER_SECOND;
  }

  /** `read_timer_value`: the cycle count scaled to ticks, with the `u64`
      product written out as wrapping. */
  function ReadTimerValue(cycles: uint32): (ticks: uint64)
    ensures ticks == cycles / 6
    ensures ticks <= 715_827_882
  {
    ScaledProductFits(cycles);
    Wrap64(cycles * TICKS_PER_SECOND) / CYCLES_PER_SECOND
  }

  /** Scaling preserves the order of cycle counts. */
  lemma ReadTimerValueMonotone(c1: uint32, c2: uint32)
    requires c1 <= c2
    ensures ReadTimerValue(c1) <= ReadTimerValue(c2)
  {
  }

  /** `get_systimer_count`: the accumulator plus the scaled live count, the
      `u64` addition written out as wrapping. */
  function GetSystimerCount(time: uint64, cycles: uint32): (count: uint64)
    ensures time + cycles / 6 < U64_RANGE ==> count == time + cycles / 6
    ensures time + cycles / 6 >= U64_RANGE ==> count == time + cycles / 6 - U64_RANGE
  {
    Wrap64(time + ReadTimerValue(cycles))
  }

  /** The overflow increment is the scaled value of the largest cycle count,
      so the clock reads the same just before and just after a wrap. */
  lemma EpochTicksIsLastScaledCount()
    ensures EPOCH_TICKS == 715_827_882
    ensures EPOCH_TICKS == ReadTimerValue(0xFFFF_FFFF)
  {
  }

  /** Within one epoch the clock never goes backwards. */
  lemma ClockMonotoneInEpoch(time: uint64, c1: uint32, c2: uint32)
    requires c1 <= c2
    requires time + EPOCH_TICKS < U64_RANGE
    ensures GetSystimerCount(time, c1) <= GetSystimerCount(time, c2)
  {
  }

  /** Across an overflow the clock continues exactly where it stood: the last
      reading of an epoch equals the first reading of the next, also when the
      accumulator wraps. */
  lemma ClockSeamlessAcrossOverflow(time: uint64)
    ensures GetSystimerCount(time, 0xFFFF_FFFF) == GetSystimerCount(Wrap64(time + EPOCH_TICKS), 0)
  {
    EpochTicksIsLastScaledCount();
  }

  /** With `TIME` at `k` epochs, the clock is non-decreasing in the pair
      (epochs, live count) ordered lexicographically. */
  lemma ClockMonotone(k1: nat, c1: uint32, k2: nat, c2: uint32)
    requires k1 < k2 || (k1 == k2 && c1 <= c2)
    requires (k2 + 1) * EPOCH_TICKS < U64_RANGE
    ensures k1 * EPOCH_TICKS < U64_RANGE && k2 * EPOCH_TICKS < U64_RANGE
    ensures GetSystimerCount(k1 * EPOCH_TICKS, c1) <= GetSystimerCount(k2 * EPOCH_TICKS, c2)
  {
    EpochTicksIsLastScaledCount();
    if k1 < k2 {
      assert (k1 + 1) * EPOCH_TICKS <= k2 * EPOCH_TICKS;
    }
  }

  /** Each epoch is floored on its own: after `k` overflows with live count
      `c`, the clock trails the exact scaled cycle total by
      `(4 * k + c % 6) / 6` ticks (`2^32 = 6 * EPOCH_TICKS + 4`), which is at
      most `k`, and never runs ahead of it. */
  lemma EpochFlooring(k: nat, c: uint32)
    requires (k + 1) * EPOCH_TICKS < U64_RANGE
    ensures k * EPOCH_TICKS < U64_RANGE
    ensures GetSystimerCount(k * EPOCH_TICKS, c) <= (k * U32_RANGE + c) / 6
    ensures (k * U32_RANGE + c) / 6 - GetSystimerCount(k * EPOCH_TICKS, c) == (4 * k + c % 6) / 6
    ensures (k * U32_RANGE + c) / 6 - GetSystimerCount(k * EPOCH_TICKS, c) <= k
  {
    EpochTicksIsLastScaledCount();
    var reported := k * EPOCH_TICKS + c / 6;
    assert k * U32_RANGE + c == 6 * reported + (4 * k + c % 6);
    DivAddMultiple(reported, 4 * k + c % 6);
  }

  lemma DivAddMultiple(a: nat, b: nat)
    ensures (6 * a + b) / 6 == a + b / 6
  {
  }

  /* ------------------------ the tick and yield ------------------------ */

  /** The TIMG1 timer 0 as the HAL's `Timer` exposes it. */
  datatype Timer = Timer(listening: bool, running: bool, period: nat, pending: bool)

  /** What this backend owns: `TIMER1`, the accumulator `TIME`, and the
      CPU's pending-interrupt word and `CCOMPARE0` register. */
  datatype State = State(timer1: Option<Timer>, time: uint64, intPending: uint32, ccompare0: uint32)

  /** The tick timer is installed and programmed the way setup leaves it,
      and the overflow compare is at its maximum. */
  predicate Armed(s: State, delay: nat)
  {
    && s.timer1.Some?
    && s.timer1.value.listening
    && s.timer1.value.running
    && s.timer1.value.period == delay
    && s.ccompare0 == CCOMPARE_MAX
  }

  /** `setup_timer_isr`: make the timer interrupt, start it with period
      `delay`, store it in `TIMER1`, and set `CCOMPARE0` to its maximum. */
  function SetupTimerIsr(s: State, timg1Timer0: Timer, delay: nat): (r: State)
    ensures Armed(r, delay)
    ensures r.timer1.value.pending == timg1Timer0.pending
    ensures r.time == s.time && r.intPending == s.intPending
  {
    var timer := timg1Timer0.(listening := true);
    var timer := timer.(running := true, period := delay);
    s.(timer1 := Some(timer), ccompare0 := CCOMPARE_MAX)
  }

  /** The `Timer0` handler, run when the cycle counter reaches `CCOMPARE0`:
      advance `TIME` by one epoch (an atomic wrapping add) and re-arm. */
  function Timer0(s: State): (r: Outcome<State>)
    ensures r.Ran? && r.log == []
    ensures r.after.time == (s.time + EPOCH_TICKS) % U64_RANGE
    ensures r.after.ccompare0 == CCOMPARE_MAX
    ensures r.after.timer1 == s.timer1 && r.after.intPending == s.intPending
  {
    Ran(s.(time := Wrap64(s.time + EPOCH_TICKS), ccompare0 := CCOMPARE_MAX), [])
  }

  /** One overflow moves every later reading forward by exactly one epoch,
      modulo 2^64, and without a wrap by exactly one epoch. */
  lemma OverflowAdvancesClock(s: State, c: uint32)
    ensures GetSystimerCount(Timer0(s).after.time, c) == Wrap64(GetSystimerCount(s.time, c) + EPOCH_TICKS)
    ensures s.time + 2 * EPOCH_TICKS < U64_RANGE ==>
              GetSystimerCount(Timer0(s).after.time, c) == GetSystimerCount(s.time, c) + EPOCH_TICKS
  {
    EpochTicksIsLastScaledCount();
    var t, d := s.time, ReadTimerValue(c);
    WrapAddLeft(t + EPOCH_TICKS, d);
    WrapAddLeft(t + d, EPOCH_TICKS);
    assert t + EPOCH_TICKS + d == t + d + EPOCH_TICKS;
  }

  /** The `TG1_T0_LEVEL` handler: switch first, then acknowledge and restart
      the timer with `delay`. A missing timer aborts after the switch. */
  function Tg1T0Level(s: State, delay: nat): (r: Outcome<State>)
    ensures r.Aborted? <==> s.timer1.None?
    ensures r.Aborted? ==> r.log == [TaskSwitch]
    ensures Callbacks(r.log) == 0
    ensures r.Ran? ==> r.after.timer1 == Some(s.timer1.value.(running := true, period := delay, pending := false))
    ensures r.Ran? ==> r.after.time == s.time && r.after.intPending == s.intPending
    ensures r.Ran? ==> r.after.ccompare0 == s.ccompare0
    ensures r.Ran? ==> Switches(r.log) == 1 && r.log[0] == TaskSwitch
    ensures r.Ran? ==> Precedes(r.log, TaskSwitch, TickAcked)
    ensures r.Ran? ==> Precedes(r.log, TaskSwitch, TickArmed(delay))
    ensures r.Ran? ==> |r.log| == 3
  {
    match s.timer1
    case None => Aborted([TaskSwitch])
    case Some(timer) =>
      var log := [TaskSwitch, TickAcked, TickArmed(delay)];
      assert log[0] == TaskSwitch && log[1] == TickAcked && log[2] == TickArmed(delay);
      assert Switches(log[1..]) == Switches(log[2..]) == 0;
      assert Callbacks(log[1..]) == Callbacks(log[2..]) == 0;
      Ran(s.(timer1 := Some(timer.(running := true, period := delay, pending := false))), log)
  }

  /** The `Software1` handler: clear interrupt bit 29, switch, then
      acknowledge and restart the timer with `delay`. */
  function Software1(s: State, delay: nat): (r: Outcome<State>)
    ensures r.Aborted? <==> s.timer1.None?
    ensures r.Aborted? ==> r.log == [SoftIntrCleared, TaskSwitch]
    ensures Callbacks(r.log) == 0
    ensures r.Ran? ==> !Bit(r.after.intPending, SOFTWARE1_BIT)
    ensures r.Ran? ==> forall i :: i != SOFTWARE1_BIT ==> (Bit(r.after.intPending, i) <==> Bit(s.intPending, i))
    ensures r.Ran? ==> r.after.timer1 == Some(s.timer1.value.(running := true, period := delay, pending := false))
    ensures r.Ran? ==> r.after.time == s.time && r.after.ccompare0 == s.ccompare0
    ensures r.Ran? ==> Switches(r.log) == 1
    ensures r.Ran? ==> Precedes(r.log, SoftIntrCleared, TaskSwitch)
    ensures r.Ran? ==> Precedes(r.log, TaskSwitch, TickAcked)
    ensures r.Ran? ==> Precedes(r.log, TaskSwitch, TickArmed(delay))
    ensures r.Ran? ==> |r.log| == 4
  {
    var cleared := s.(intPending := ClearBit32(s.intPending, SOFTWARE1_BIT));
    match cleared.timer1
    case None => Aborted([SoftIntrCleared, TaskSwitch])
    case Some(timer) =>
      var log := [SoftIntrCleared, TaskSwitch, TickAcked, TickArmed(delay)];
      assert log[0] == SoftIntrCleared && log[1] == TaskSwitch;
      assert log[2] == TickAcked && log[3] == TickArmed(delay);
      assert Switches(log[1..]) == 1 && Switches(log[2..]) == Switches(log[3..]) == 0;
      assert Callbacks(log[1..]) == Callbacks(log[2..]) == Callbacks(log[3..]) == 0;
      Ran(cleared.(timer1 := Some(timer.(running := true, period := delay, pending := false))), log)
  }

  /** The two preemption handlers do nothing beyond their listed steps: no
      second acknowledgement, no re-arm with another period, no extra clear
      or switch. Their own contracts give the order of these steps. */
  lemma PreemptionLogsExact(s: State, delay: nat)
    ensures Tg1T0Level(s, delay).Ran? ==>
              multiset(Tg1T0Level(s, delay).log) == multiset{TaskSwitch, TickAcked, TickArmed(delay)}
    ensures Software1(s, delay).Ran? ==>
              multiset(Software1(s, delay).log) == multiset{SoftIntrCleared, TaskSwitch, TickAcked, TickArmed(delay)}
  {
  }

  /** `yield_task`: raise CPU interrupt 29, nothing more. */
  function YieldTask(s: State): (r: State)
    ensures Bit(r.intPending, SOFTWARE1_BIT)
    ensures forall i :: i != SOFTWARE1_BIT ==> (Bit(r.intPending, i) <==> Bit(s.intPending, i))
    ensures r.timer1 == s.timer1 && r.time == s.time && r.ccompare0 == s.ccompare0
  {
    s.(intPending := SetBit32(s.intPending, SOFTWARE1_BIT))
  }

  /** The `RWBLE` handler (its body runs in one critical section). */
  function Rwble(table: Bindings): (log: seq<Event>)
    ensures DispatchesTo(log, Lookup(table, RWBLE_SLOT))
  {
    Dispatch(Lookup(table, RWBLE_SLOT))
  }

  /** The `BT_BB` handler (its body runs in one critical section). */
  function BtBb(table: Bindings): (log: seq<Event>)
    ensures DispatchesTo(log, Lookup(table, BT_BB_SLOT))
  {
    Dispatch(Lookup(table, BT_BB_SLOT))
  }

  /* ------------------- handlers driven by interrupts ------------------- */

  /** The interrupt lines this backend handles. */
  datatype Interrupt =
    | TG1_T0_LEVEL | SOFTWARE1 | TIMER0 | WIFI_MAC | WIFI_PWR | RWBLE | BT_BB

  predicate Preempts(irq: Interrupt)
  {
    irq == TG1_T0_LEVEL || irq == SOFTWARE1
  }

  predicate IsRadio(irq: Interrupt)
  {
    !Preempts(irq) && irq != TIMER0
  }

  /** The binding slot a radio line reads. */
  function RadioSlot(irq: Interrupt): nat
    requires IsRadio(irq)
  {
    match irq
    case WIFI_MAC => WIFI_SLOT
    case WIFI_PWR => WIFI_SLOT
    case RWBLE => RWBLE_SLOT
    case BT_BB => BT_BB_SLOT
  }

  /** Run the handler of line `irq`. */
  function Step(s: State, table: Bindings, delay: nat, irq: Interrupt): Outcome<State>
  {
    match irq
    case TG1_T0_LEVEL => Tg1T0Level(s, delay)
    case SOFTWARE1 => Software1(s, delay)
    case TIMER0 => Timer0(s)
    case WIFI_MAC => Ran(s, WifiInterrupt(table))
    case WIFI_PWR => Ran(s, WifiInterrupt(table))
    case RWBLE => Ran(s, Rwble(table))
    case BT_BB => Ran(s, BtBb(table))
  }

  /** Run the handlers of `irqs` one after another, each to completion,
      stopping at the first abort. */
  function Run(s: State, table: Bindings, delay: nat, irqs: seq<Interrupt>): Outcome<State>
    decreases |irqs|
  {
    if irqs == [] then Ran(s, [])
    else
      match Step(s, table, delay, irqs[0])
      case Aborted(log) => Aborted(log)
      case Ran(next, log) =>
        match Run(next, table, delay, irqs[1..])
        case Ran(last, rest) => Ran(last, log + rest)
        case Aborted(rest) => Aborted(log + rest)
  }

  /** A cycle-counter overflow. */
  predicate IsOverflow(irq: Interrupt)
  {
    irq == TIMER0
  }

  /** A radio line whose binding is not null. */
  predicate BoundRadio(table: Bindings, irq: Interrupt)
  {
    IsRadio(irq) && Lookup(table, RadioSlot(irq)).fnc != NULL
  }

  /** How many of `irqs` are radio lines whose binding is not null. */
  function BoundRadioEvents(table: Bindings, irqs: seq<Interrupt>): nat
  {
    Count((irq: Interrupt) => BoundRadio(table, irq), irqs)
  }

  /** Every handler keeps the timer armed with the configured period. */
  lemma StepKeepsArmed(s: State, table: Bindings, delay: nat, irq: Interrupt)
    requires Armed(s, delay)
    ensures Step(s, table, delay, irq).Ran?
    ensures Armed(Step(s, table, delay, irq).after, delay)
    ensures Switches(Step(s, table, delay, irq).log) == (if Preempts(irq) then 1 else 0)
    ensures Callbacks(Step(s, table, delay, irq).log) == (if BoundRadio(table, irq) then 1 else 0)
  {
    match irq
    case TIMER0 => assert Step(s, table, delay, irq).log == [];
    case TG1_T0_LEVEL =>
    case SOFTWARE1 =>
    case WIFI_MAC =>
    case WIFI_PWR =>
    case RWBLE =>
    case BT_BB =>
  }

  /** A handler that returns moves `TIME` by one epoch, wrapping, if it is
      the overflow handler, and leaves it alone otherwise. */
  lemma StepAdvancesTime(s: State, table: Bindings, delay: nat, irq: Interrupt)
    ensures Step(s, table, delay, irq).Ran? ==>
              Step(s, table, delay, irq).after.time == Wrap64(s.time + (if IsOverflow(irq) then EPOCH_TICKS else 0))
  {
    assert Wrap64(s.time + 0) == s.time;
  }

  /** Once armed, any sequence of interrupts runs without aborting, leaves
      the timer armed with period `delay`, switches tasks exactly once per
      preemption interrupt, and calls the radio exactly once per interrupt
      of a bound radio line. */
  lemma {:induction false} RunKeepsArmed(s: State, table: Bindings, delay: nat, irqs: seq<Interrupt>)
    requires Armed(s, delay)
    ensures Run(s, table, delay, irqs).Ran?
    ensures Armed(Run(s, table, delay, irqs).after, delay)
    ensures Switches(Run(s, table, delay, irqs).log) == Count(Preempts, irqs)
    ensures Callbacks(Run(s, table, delay, irqs).log) == BoundRadioEvents(table, irqs)
    decreases |irqs|
  {
    if irqs != [] {
      StepKeepsArmed(s, table, delay, irqs[0]);
      var first := Step(s, table, delay, irqs[0]);
      RunKeepsArmed(first.after, table, delay, irqs[1..]);
      var rest := Run(first.after, table, delay, irqs[1..]);
      SwitchesAppend(first.log, rest.log);
      CallbacksAppend(first.log, rest.log);
    }
  }

  /** Any sequence of interrupts that runs to the end advances `TIME` by one
      epoch per overflow, wrapping modulo 2^64, and by nothing else. */
  lemma {:induction false} RunAdvancesTime(s: State, table: Bindings, delay: nat, irqs: seq<Interrupt>)
    ensures Run(s, table, delay, irqs).Ran? ==>
              Run(s, table, delay, irqs).after.time == Wrap64(s.time + Count(IsOverflow, irqs) * EPOCH_TICKS)
    decreases |irqs|
  {
    if irqs == [] {
      assert Wrap64(s.time + 0) == s.time;
    } else {
      var first := Step(s, table, delay, irqs[0]);
      if first.Ran? {
        var rest := Run(first.after, table, delay, irqs[1..]);
        if rest.Ran? {
          assert Run(s, table, delay, irqs) == Ran(rest.after, first.log + rest.log);
          var n := Count(IsOverflow, irqs[1..]);
          assert Count(IsOverflow, irqs) == (if IsOverflow(irqs[0]) then 1 else 0) + n;
          StepAdvancesTime(s, table, delay, irqs[0]);
          RunAdvancesTime(first.after, table, delay, irqs[1..]);
          EpochsAdd(s.time, IsOverflow(irqs[0]), n);
        }
      }
    }
  }

  /** One step's epoch followed by `n` more, each wrapped, is `n` or
      `n + 1` epochs wrapped once. */
  lemma EpochsAdd(t: nat, overflow: bool, n: nat)
    ensures Wrap64(Wrap64(t + (if overflow then EPOCH_TICKS else 0)) + n * EPOCH_TICKS)
         == Wrap64(t + ((if overflow then 1 else 0) + n) * EPOCH_TICKS)
  {
    var here := if overflow then EPOCH_TICKS else 0;
    var later := n * EPOCH_TICKS;
    assert ((if overflow then 1 else 0) + n) * EPOCH_TICKS == here + later;
    WrapAddLeft(t + here, later);
  }

  /** Starting from boot (`TIME` is 0), after `k` overflows `TIME` is
      `k * EPOCH_TICKS`. */
  lemma TimeAfterOverflows(s: State, table: Bindings, delay: nat, irqs: seq<Interrupt>)
    requires Armed(s, delay) && s.time == 0
    requires Count(IsOverflow, irqs) * EPOCH_TICKS < U64_RANGE
    ensures Run(s, table, delay, irqs).Ran?
    ensures Run(s, table, delay, irqs).after.time == Count(IsOverflow, irqs) * EPOCH_TICKS
  {
    RunKeepsArmed(s, table, delay, irqs);
    RunAdvancesTime(s, table, delay, irqs);
  }

  /** Without an installed timer, the first preemption interrupt aborts. */
  lemma {:induction false} MissingTimerAborts(s: State, table: Bindings, delay: nat, irqs: seq<Interrupt>)
    requires s.timer1.None?
    requires exists i :: 0 <= i < |irqs| && Preempts(irqs[i])
    ensures Run(s, table, delay, irqs).Aborted?
    decreases |irqs|
  {
    if !Preempts(irqs[0]) {
      var i :| 0 <= i < |irqs| && Preempts(irqs[i]);
      assert Preempts(irqs[1..][i - 1]);
      MissingTimerAborts(Step(s, table, delay, irqs[0]).after, table, delay, irqs[1..]);
    }
  }

  /** A yield followed by its interrupt switches exactly once, leaves every
      pending-interrupt bit as it was before the yield except bit 29, which
      ends clear, and leaves the timer armed and acknowledged. */
  lemma YieldThenInterrupt(s: State, delay: nat)
    requires Armed(s, delay)
    ensures Software1(YieldTask(s), delay).Ran?
    ensures Switches(Software1(YieldTask(s), delay).log) == 1
    ensures !Bit(Software1(YieldTask(s), delay).after.intPending, SOFTWARE1_BIT)
    ensures forall i :: i != SOFTWARE1_BIT ==>
              (Bit(Software1(YieldTask(s), delay).after.intPending, i) <==> Bit(s.intPending, i))
    ensures Armed(Software1(YieldTask(s), delay).after, delay)
    ensures !Software1(YieldTask(s), delay).after.timer1.value.pending
  {
  }
}
