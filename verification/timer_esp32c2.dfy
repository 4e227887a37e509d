/**
  The esp32c2 backend: a native systimer counter read as two 32-bit words,
  a periodic systimer alarm driving preemption, the `FROM_CPU_INTR3` software
  interrupt for yields, and four radio interrupt lines.
 */
module TimerC2 {
  import opened Bits
  import opened Isr

  /** `unit0_op` value that asks the systimer to latch unit 0: `1 << 30`. */
  const UNIT0_UPDATE: uint32 := 0x4000_0000

  /** Bit of `unit0_op` that says the latched value may be read. */
  const UNIT0_VALUE_VALID: nat := 29

  /** Radio adapter slots read by the radio handlers. */
  const LP_TIMER_SLOT: nat := 7  // `ISR_INTERRUPT_7`
  const BT_MAC_SLOT: nat := 4    // `ISR_INTERRUPT_4`

  /* ---------------------------- the clock ---------------------------- */

  /** `(bits >> 29) & 1`, the test the read loop polls. */
  function ValidFlag(bits: uint32): (v: nat)
    ensures v <= 1
    ensures v != 0 <==> Bit(bits, UNIT0_VALUE_VALID)
  {
    AndOne(Shr(bits, 29));
    ShrLowBit(bits, 29);
    And(Shr(bits, 29), 1)
  }

  /** The snapshot request sets bit 30 and no other, so in particular it does
      not itself claim that a value is valid. */
  lemma UpdateRequestIsBit30Only()
    ensures UNIT0_UPDATE == Pow2(30)
    ensures forall i :: Bit(UNIT0_UPDATE, i) <==> i == 30
    ensures !Bit(UNIT0_UPDATE, UNIT0_VALUE_VALID)
  {
    Pow2Table();
    forall i
      ensures Bit(UNIT0_UPDATE, i) <==> i == 30
    {
      BitOfPow2(30, i);
    }
  }

  /** `value_lo | (value_hi << 32)` with both words widened to `u64`: the two
      words occupy disjoint halves of the count. */
  function ComposeCount(lo: uint32, hi: uint32): (count: uint64)
    ensures count == hi * U32_RANGE + lo
    ensures count / U32_RANGE == hi && count % U32_RANGE == lo
  {
    Pow2Table();
    OrDisjointHigh(lo, hi, 32);
    Or(lo, Shl64(hi, 32))
  }

  /** One access to the systimer registers inside the read's critical section. */
  datatype Access =
    | OpWrite(bits: uint32)   // write to `unit0_op`
    | OpRead(bits: uint32)    // read of `unit0_op`
    | LoRead(bits: uint32)    // read of `unit0_value_lo`
    | HiRead(bits: uint32)    // read of `unit0_value_hi`

  /** `get_systimer_count`. The hardware is given as the successive values
      `status` that reads of `unit0_op` return and the latched words `lo` and
      `hi`; the hardware guarantees the valid bit eventually shows, which is
      the requirement that some polled value carries it. The result is the
      count, how many times the status was polled, and the register accesses
      in order. */
  method GetSystimerCount(status: seq<uint32>, lo: uint32, hi: uint32)
    returns (count: uint64, polls: nat, accesses: seq<Access>)
    requires exists k :: 0 <= k < |status| && Bit(status[k], UNIT0_VALUE_VALID)
    ensures 1 <= polls <= |status|
    ensures Bit(status[polls - 1], UNIT0_VALUE_VALID)
    ensures forall j :: 0 <= j < polls - 1 ==> !Bit(status[j], UNIT0_VALUE_VALID)
    ensures |accesses| == polls + 3
    ensures accesses[0] == OpWrite(UNIT0_UPDATE)
    ensures forall j :: 0 <= j < polls ==> accesses[j + 1] == OpRead(status[j])
    ensures accesses[polls + 1] == LoRead(lo) && accesses[polls + 2] == HiRead(hi)
    ensures count == hi * U32_RANGE + lo
  {
    accesses := [OpWrite(UNIT0_UPDATE)];
    var i := 0;
    while true
      invariant 0 <= i < |status|
      invariant forall j :: 0 <= j < i ==> !Bit(status[j], UNIT0_VALUE_VALID)
      invariant exists k :: i <= k < |status| && Bit(status[k], UNIT0_VALUE_VALID)
      invariant |accesses| == i + 1 && accesses[0] == OpWrite(UNIT0_UPDATE)
      invariant forall j :: 0 <= j < i ==> accesses[j + 1] == OpRead(status[j])
      decreases |status| - i
    {
      accesses := accesses + [OpRead(status[i])];
      if ValidFlag(status[i]) != 0 {
        break;
      }
      i := i + 1;
    }
    polls := i + 1;
    accesses := accesses + [LoRead(lo), HiRead(hi)];
    count := ComposeCount(lo, hi);
  }

  /* ------------------------ the tick and yield ------------------------ */

  /** Systimer alarm 0 as the HAL's `Alarm` exposes it. */
  datatype Alarm = Alarm(periodic: bool, period: nat, pending: bool, enabled: bool)

  /** What this backend owns: `ALARM0`, and the `cpu_intr_from_cpu_3` bit
      that raises the yield interrupt. */
  datatype State = State(alarm0: Option<Alarm>, fromCpu3: bool)

  /** The alarm is installed and programmed the way setup leaves it. */
  predicate Armed(s: State, delay: nat)
  {
    && s.alarm0.Some?
    && s.alarm0.value.periodic
    && s.alarm0.value.period == delay
    && s.alarm0.value.enabled
  }

  /** `setup_timer_isr`: make the alarm periodic with period `delay`, clear
      its pending interrupt, enable it, and store it in `ALARM0`. */
  function SetupTimerIsr(s: State, systimer: Alarm, delay: nat): (r: State)
    ensures Armed(r, delay) && !r.alarm0.value.pending
    ensures r.fromCpu3 == s.fromCpu3
  {
    var alarm := systimer.(periodic := true);
    var alarm := alarm.(period := delay);
    var alarm := alarm.(pending := false);
    var alarm := alarm.(enabled := true);
    s.(alarm0 := Some(alarm))
  }

  /** The `SYSTIMER_TARGET0` handler: acknowledge the alarm, then switch. The
      alarm reloads itself, so its period is left as it is. */
  function SystimerTarget0(s: State): (r: Outcome<State>)
    ensures r.Aborted? <==> s.alarm0.None?
    ensures r.Aborted? ==> r.log == []
    ensures Callbacks(r.log) == 0
    ensures r.Ran? ==> r.after.alarm0 == Some(s.alarm0.value.(pending := false))
    ensures r.Ran? ==> r.after.fromCpu3 == s.fromCpu3
    ensures r.Ran? ==> Switches(r.log) == 1 && r.log[|r.log| - 1] == TaskSwitch
    ensures r.Ran? ==> Precedes(r.log, TickAcked, TaskSwitch)
    ensures r.Ran? ==> |r.log| == 2
  {
    match s.alarm0
    case None => Aborted([])
    case Some(alarm) =>
      var log := [TickAcked, TaskSwitch];
      assert log[0] == TickAcked && log[1] == TaskSwitch;
      Ran(s.(alarm0 := Some(alarm.(pending := false))), log)
  }

  /** The `FROM_CPU_INTR3` handler: clear the yield bit, re-program the
      alarm's period and acknowledge it, then switch. The bit is cleared
      before the missing alarm is noticed. */
  function FromCpuIntr3(s: State, delay: nat): (r: Outcome<State>)
    ensures r.Aborted? <==> s.alarm0.None?
    ensures r.Aborted? ==> r.log == [SoftIntrCleared]
    ensures Callbacks(r.log) == 0
    ensures r.Ran? ==> !r.after.fromCpu3
    ensures r.Ran? ==> r.after.alarm0 == Some(s.alarm0.value.(period := delay, pending := false))
    ensures r.Ran? ==> Switches(r.log) == 1 && r.log[|r.log| - 1] == TaskSwitch
    ensures r.Ran? ==> Precedes(r.log, TickArmed(delay), TaskSwitch)
    ensures r.Ran? ==> Precedes(r.log, TickAcked, TaskSwitch)
    ensures r.Ran? ==> Precedes(r.log, SoftIntrCleared, TaskSwitch)
    ensures r.Ran? ==> |r.log| == 4
  {
    var cleared := s.(fromCpu3 := false);
    match cleared.alarm0
    case None => Aborted([SoftIntrCleared])
    case Some(alarm) =>
      var log := [SoftIntrCleared, TickArmed(delay), TickAcked, TaskSwitch];
      assert log[0] == SoftIntrCleared && log[1] == TickArmed(delay);
      assert log[2] == TickAcked && log[3] == TaskSwitch;
      assert Switches(log[1..]) == Switches(log[2..]) == Switches(log[3..]) == 1;
      assert Callbacks(log[1..]) == Callbacks(log[2..]) == Callbacks(log[3..]) == 0;
      Ran(cleared.(alarm0 := Some(alarm.(period := delay, pending := false))), log)
  }

  /** The two preemption handlers do nothing beyond their listed steps: no
      re-arm or soft-interrupt clear in the alarm handler, no second
      acknowledgement or switch in either. Their own contracts give the
      order of these steps. */
  lemma PreemptionLogsExact(s: State, delay: nat)
    ensures SystimerTarget0(s).Ran? ==>
              multiset(SystimerTarget0(s).log) == multiset{TickAcked, TaskSwitch}
    ensures FromCpuIntr3(s, delay).Ran? ==>
              multiset(FromCpuIntr3(s, delay).log) == multiset{SoftIntrCleared, TickArmed(delay), TickAcked, TaskSwitch}
  {
  }

  /** `yield_task`: raise the yield interrupt, nothing more. */
  function YieldTask(s: State): (r: State)
    ensures r.fromCpu3
    ensures r.alarm0 == s.alarm0
  {
    s.(fromCpu3 := true)
  }

  /** The `LP_TIMER` handler. */
  function LpTimer(table: Bindings): (log: seq<Event>)
    ensures DispatchesTo(log, Lookup(table, LP_TIMER_SLOT))
  {
    Dispatch(Lookup(table, LP_TIMER_SLOT))
  }

  /** The `BT_MAC` handler. */
  function BtMac(table: Bindings): (log: seq<Event>)
    ensures DispatchesTo(log, Lookup(table, BT_MAC_SLOT))
  {
    Dispatch(Lookup(table, BT_MAC_SLOT))
  }

  /* ------------------- handlers driven by interrupts ------------------- */

  /** The interrupt lines this backend handles. */
  datatype Interrupt =
    | SYSTIMER_TARGET0 | FROM_CPU_INTR3 | WIFI_MAC | WIFI_PWR | LP_TIMER | BT_MAC

  predicate Preempts(irq: Interrupt)
  {
    irq == SYSTIMER_TARGET0 || irq == FROM_CPU_INTR3
  }

  /** The binding slot a radio line reads. */
  function RadioSlot(irq: Interrupt): nat
    requires !Preempts(irq)
  {
    match irq
    case WIFI_MAC => WIFI_SLOT
    case WIFI_PWR => WIFI_SLOT
    case LP_TIMER => LP_TIMER_SLOT
    case BT_MAC => BT_MAC_SLOT
  }

  /** Run the handler of line `irq`. */
  function Step(s: State, table: Bindings, delay: nat, irq: Interrupt): Outcome<State>
  {
    match irq
    case SYSTIMER_TARGET0 => SystimerTarget0(s)
    case FROM_CPU_INTR3 => FromCpuIntr3(s, delay)
    case WIFI_MAC => Ran(s, WifiInterrupt(table))
    case WIFI_PWR => Ran(s, WifiInterrupt(table))
    case LP_TIMER => Ran(s, LpTimer(table))
    case BT_MAC => Ran(s, BtMac(table))
  }

  /** Run the handlers of `irqs` one after another, each to completion,
      stopping at the first abort. */
  function Run(s: State, table: Bindings, delay: nat, irqs: seq<Interrupt>): Outcome<State>
    decreases |irqs|
  {
    if irqs == [] then Ran(s, [])
    else
      match Step(s, table, delay, irqs[0])
      case Aborted(log) => Aborted(log)
      case Ran(next, log) =>
        match Run(next, table, delay, irqs[1..])
        case Ran(last, rest) => Ran(last, log + rest)
        case Aborted(rest) => Aborted(log + rest)
  }

  /** A radio line whose binding is not null. */
  predicate BoundRadio(table: Bindings, irq: Interrupt)
  {
    !Preempts(irq) && Lookup(table, RadioSlot(irq)).fnc != NULL
  }

  /** How many of `irqs` are radio lines whose binding is not null. */
  function BoundRadioEvents(table: Bindings, irqs: seq<Interrupt>): nat
  {
    Count((irq: Interrupt) => BoundRadio(table, irq), irqs)
  }

  /** Every handler keeps the alarm armed with the configured period. */
  lemma StepKeepsArmed(s: State, table: Bindings, delay: nat, irq: Interrupt)
    requires Armed(s, delay)
    ensures Step(s, table, delay, irq).Ran?
    ensures Armed(Step(s, table, delay, irq).after, delay)
    ensures Switches(Step(s, table, delay, irq).log) == (if Preempts(irq) then 1 else 0)
    ensures Callbacks(Step(s, table, delay, irq).log)
         == (if BoundRadio(table, irq) then 1 else 0)
  {
  }

  /** Once armed, any sequence of interrupts runs without aborting, leaves
      the alarm armed with period `delay`, switches tasks exactly once per
      preemption interrupt, and calls the radio exactly once per interrupt of
      a bound radio line. */
  lemma {:induction false} RunKeepsArmed(s: State, table: Bindings, delay: nat, irqs: seq<Interrupt>)
    requires Armed(s, delay)
    ensures Run(s, table, delay, irqs).Ran?
    ensures Armed(Run(s, table, delay, irqs).after, delay)
    ensures Switches(Run(s, table, delay, irqs).log) == Count(Preempts, irqs)
    ensures Callbacks(Run(s, table, delay, irqs).log) == BoundRadioEvents(table, irqs)
    decreases |irqs|
  {
    if irqs != [] {
      StepKeepsArmed(s, table, delay, irqs[0]);
      var first := Step(s, table, delay, irqs[0]);
      RunKeepsArmed(first.after, table, delay, irqs[1..]);
      var rest := Run(first.after, table, delay, irqs[1..]);
      SwitchesAppend(first.log, rest.log);
      CallbacksAppend(first.log, rest.log);
    }
  }

  /** Without an installed alarm, the first preemption interrupt aborts. */
  lemma {:induction false} MissingAlarmAborts(s: State, table: Bindings, delay: nat, irqs: seq<Interrupt>)
    requires s.alarm0.None?
    requires exists i :: 0 <= i < |irqs| && Preempts(irqs[i])
    ensures Run(s, table, delay, irqs).Aborted?
    decreases |irqs|
  {
    if !Preempts(irqs[0]) {
      var i :| 0 <= i < |irqs| && Preempts(irqs[i]);
      assert Preempts(irqs[1..][i - 1]);
      MissingAlarmAborts(s, table, delay, irqs[1..]);
    }
  }

  /** A yield followed by its interrupt switches exactly once and leaves the
      yield bit clear and the alarm armed and acknowledged. */
  lemma YieldThenInterrupt(s: State, delay: nat)
    requires Armed(s, delay)
    ensures FromCpuIntr3(YieldTask(s), delay).Ran?
    ensures Switches(FromCpuIntr3(YieldTask(s), delay).log) == 1
    ensures !FromCpuIntr3(YieldTask(s), delay).after.fromCpu3
    ensures Armed(FromCpuIntr3(YieldTask(s), delay).after, delay)
    ensures !FromCpuIntr3(YieldTask(s), delay).after.alarm0.value.pending
  {
  }

  /** Setting up and then taking ten alarm interrupts switches tasks ten
      times and leaves the alarm period at `delay`. */
  lemma TenTicks(s: State, systimer: Alarm, table: Bindings, delay: nat)
    ensures Run(SetupTimerIsr(s, systimer, delay), table, delay, seq(10, _ => SYSTIMER_TARGET0)).Ran?
    ensures Switches(Run(SetupTimerIsr(s, systimer, delay), table, delay, seq(10, _ => SYSTIMER_TARGET0)).log) == 10
    ensures Armed(Run(SetupTimerIsr(s, systimer, delay), table, delay, seq(10, _ => SYSTIMER_TARGET0)).after, delay)
  {
    var ticks := seq(10, _ => SYSTIMER_TARGET0);
    RunKeepsArmed(SetupTimerIsr(s, systimer, delay), table, delay, ticks);
    CountAll(Preempts, ticks);
  }
}
