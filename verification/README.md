# Tick clock and preemption interrupts of esp-wifi, modelled in Dafny

esp-wifi shares one CPU between application tasks and the closed Wi-Fi/BLE
firmware. The two timer backends modelled here provide the pieces underneath
that sharing:

- a monotonic tick clock (`get_systimer_count`);
- a periodic hardware interrupt that forces a task switch;
- a software interrupt that lets code request a switch (`yield_task`);
- the interrupt handlers that forward radio hardware interrupts to the
  callbacks the radio adapter registered.

The two backends are:

- **esp32c2** (`TimerC2`, `timer_esp32c2.dfy`). The count is read from the
  systimer as two 32-bit words after a latch request and a poll of the
  "value valid" bit. Preemption comes from systimer alarm 0 in periodic mode.
  Yield uses the `FROM_CPU_INTR3` software interrupt.
- **esp32s3** (`TimerS3`, `timer_esp32s3.dfy`). The count is the 32-bit CPU
  cycle counter (240 MHz) scaled to 40 MHz ticks. It is extended to 64 bits
  by the accumulator `TIME`, which the `Timer0` (`CCOMPARE0`) interrupt
  advances once per counter wrap. Preemption comes from the TIMG1 timer 0
  interrupt `TG1_T0_LEVEL`. Yield raises CPU interrupt 29 (`Software1`).

Shared modules:

- `Bits` (`bits.dfy`) defines `u32`/`u64` words and the bitwise operators
  the code uses (`|`, `&`, `& !`, `>>`, `<<`), bit by bit on naturals. Its
  lemmas prove these facts: or-ing disjoint words is addition, setting or
  clearing one bit touches no other bit, and `(x >> n) & 1` tests bit `n`.
- `Isr` (`isr.dfy`) defines what a handler does that can be seen from
  outside, as an ordered event log. The events are calls to `task_switch`,
  calls into radio callbacks, and acknowledging or re-arming the tick
  hardware. It also defines how a handler ends: `Ran` with a new state, or
  `Aborted` when `unwrap!` finds no stored timer. Finally it holds the radio
  bindings and the null-checked dispatch that all radio handlers share. The
  bindings are statics of two adapters: `ISR_INTERRUPT_1` belongs to the
  Wi-Fi adapter (`wifi::os_adapter`). The other slots belong to the BLE
  adapter's chip-specific part (`ble::npl` on esp32c2, `ble::btdm` on
  esp32s3). One map keyed by slot number is enough, because on each chip
  the slots the handlers read are distinct.

Each interrupt handler is a pure function from the backend's state to an
`Outcome`. `Run` runs a sequence of interrupts one after another. The main
theorems (`RunKeepsArmed`) say that once setup has run, any sequence of
interrupts:

- never aborts;
- leaves the tick timer armed with the configured period;
- calls `task_switch` exactly once per preemption interrupt;
- calls the radio exactly once per interrupt on a line with a non-null
  binding;
- on esp32s3, advances `TIME` by exactly one epoch per counter overflow,
  modulo 2^64 (`RunAdvancesTime`).

The configured tick period (`TIMER_DELAY`, taken from the build-time
`tick_rate_hz`) is the parameter `delay`.

Reading and writing hardware registers is replaced by two things: register
values are inputs, and register writes are fields of the state.
`task_switch` and the radio callbacks are recorded as log events. `u64`
addition and multiplication are modelled as wrapping (`Wrap64`). The handler
and run lemmas hold across a wrap of `TIME`. Some clock lemmas also state the
bounds under which no wrap happens.

## Model

| member | source | states |
|---|---|---|
| TimerC2.ValidFlag | esp-wifi/src/timer_esp32c2.rs:197 | `(bits >> 29) & 1` is 0 or 1. It is non-zero exactly when bit 29 of the status word is set. |
| TimerC2.UpdateRequestIsBit30Only | esp-wifi/src/timer_esp32c2.rs:193 | The latch request `1 << 30` has bit 30 set and no other bit. In particular it does not set the valid bit 29. |
| TimerC2.ComposeCount | esp-wifi/src/timer_esp32c2.rs:203-206 | `lo \| (hi << 32)` equals `hi * 2^32 + lo`. Dividing by 2^32 gives back `hi` and taking mod 2^32 gives back `lo`, so the words do not overlap. |
| TimerC2.GetSystimerCount | esp-wifi/src/timer_esp32c2.rs:189-208 | The registers are accessed in this order: the latch request is written first, then the status is polled until the first word with the valid bit, then `lo` and then `hi` are read. No earlier poll had the bit. The count is `hi * 2^32 + lo`. |
| TimerC2.SetupTimerIsr | esp-wifi/src/timer_esp32c2.rs:22-28 | After setup the stored alarm is present and periodic. Its period is `delay`, its interrupt is enabled and its pending flag is clear. The yield bit is unchanged. |
| TimerC2.SystimerTarget0 | esp-wifi/src/timer_esp32c2.rs:149-157 | It aborts exactly when no alarm is stored, and then it has done nothing. Otherwise it clears only the alarm's pending flag and keeps the period. It calls `task_switch` exactly once, as its last action, after the acknowledgement. Its log has exactly these two events, and it makes no radio call. |
| TimerC2.FromCpuIntr3 | esp-wifi/src/timer_esp32c2.rs:159-177 | It aborts exactly when no alarm is stored, after clearing the yield bit. Otherwise it clears the yield bit, sets the alarm period to `delay` and clears the pending flag. Then it calls `task_switch` exactly once, after all three. Its log has exactly these four events. |
| TimerC2.PreemptionLogsExact | esp-wifi/src/timer_esp32c2.rs:149-177 | The two preemption handlers log exactly their own steps, as multisets. The alarm handler logs one acknowledgement and one switch. The yield handler logs one clear, one re-arm with `delay`, one acknowledgement and one switch. Neither handler re-arms with another period, clears the yield interrupt twice, or switches twice. |
| TimerC2.YieldTask | esp-wifi/src/timer_esp32c2.rs:179-185 | It sets the `cpu_intr_from_cpu_3` bit and leaves the alarm untouched. It has no event log, so it performs no task switch. |
| Isr.WifiInterrupt | esp-wifi/src/timer_esp32c2.rs:71-103 | Both Wi-Fi handlers read binding `ISR_INTERRUPT_1`. This holds for `WIFI_MAC` and `WIFI_PWR` on both chips; the esp32s3 copies are esp-wifi/src/timer_esp32s3.rs lines 97-125. A null `fnc` gives no call. A non-null `fnc` gives exactly one call, `fnc(arg)`, and nothing else. |
| TimerC2.LpTimer | esp-wifi/src/timer_esp32c2.rs:105-125 | It reads `ISR_INTERRUPT_7`. It makes no call when `fnc` is null and exactly one call `fnc(arg)` otherwise. |
| TimerC2.BtMac | esp-wifi/src/timer_esp32c2.rs:127-147 | It reads `ISR_INTERRUPT_4`. It makes no call when `fnc` is null and exactly one call `fnc(arg)` otherwise. |
| TimerC2.StepKeepsArmed | esp-wifi/src/timer_esp32c2.rs:71-177 | Once the alarm is armed, every handler returns normally and keeps it armed with period `delay`. A handler switches once if it is a preemption handler and otherwise not at all. |
| TimerC2.RunKeepsArmed | esp-wifi/src/timer_esp32c2.rs:71-177 | Once the alarm is armed, any interrupt sequence runs without abort and leaves the alarm armed with period `delay`. There is one `task_switch` per preemption interrupt and one radio call per interrupt of a bound radio line. |
| TimerC2.MissingAlarmAborts | esp-wifi/src/timer_esp32c2.rs:149-177 | With no alarm stored, a sequence that contains a preemption interrupt aborts. |
| TimerC2.YieldThenInterrupt | esp-wifi/src/timer_esp32c2.rs:159-185 | A yield followed by its interrupt gives exactly one task switch. Afterwards the yield bit is clear and the alarm is armed with `delay` and acknowledged. |
| TimerC2.TenTicks | esp-wifi/src/timer_esp32c2.rs:149-157 | After setup, ten alarm interrupts give exactly ten task switches, and the alarm period is still `delay`. |
| Isr.Dispatch | esp-wifi/src/timer_esp32c2.rs:79-82 | The shared radio body makes no task switch. It makes no call for a null `fnc` and exactly one call with the stored `arg` otherwise. |
| Bits.OrDisjointHigh | esp-wifi/src/timer_esp32c2.rs:203-206 | If `a < 2^k`, then `a \| (b * 2^k) == a + b * 2^k`. |
| Bits.Shl64 | esp-wifi/src/timer_esp32c2.rs:204 | `x << n` on a `u64` is `x * 2^n` whenever no bit is shifted out. |
| Bits.ShrLowBit | esp-wifi/src/timer_esp32c2.rs:197 | The lowest bit of `x >> n` is bit `n` of `x`. |
| Bits.SetBitOnly | esp-wifi/src/timer_esp32s3.rs:188-193 | `x \| (1 << k)` has bit `k` set and every other bit as in `x`. |
| Bits.ClearBitOnly | esp-wifi/src/timer_esp32s3.rs:170-174 | `x & !(1 << k)` has bit `k` clear and every other bit as in `x`. |
| TimerS3.ScaledProductFits | esp-wifi/src/timer_esp32s3.rs:32-35 | For a 32-bit cycle count `c`, `c * 40_000_000` fits in a `u64`, and dividing it by `240_000_000` gives `c / 6`. |
| TimerS3.ReadTimerValue | esp-wifi/src/timer_esp32s3.rs:31-35 | The scaled value is `c / 6` and is at most 715827882. |
| TimerS3.ReadTimerValueMonotone | esp-wifi/src/timer_esp32s3.rs:32-35 | Scaling never reverses the order of two cycle counts. |
| TimerS3.GetSystimerCount | esp-wifi/src/timer_esp32s3.rs:27-29 | The count is `TIME + c / 6`, reduced mod 2^64 only when the sum leaves 64 bits. |
| TimerS3.EpochTicksIsLastScaledCount | esp-wifi/src/timer_esp32s3.rs:92 | The overflow increment `2^32 * 40_000_000 / 240_000_000` is 715827882. That equals the scaled value of the largest cycle count. |
| TimerS3.ClockMonotoneInEpoch | esp-wifi/src/timer_esp32s3.rs:27-35 | With `TIME` fixed, a larger cycle count never gives a smaller clock. |
| TimerS3.ClockSeamlessAcrossOverflow | esp-wifi/src/timer_esp32s3.rs:89-95 | The last reading of an epoch, `TIME + read(2^32 - 1)`, equals the first reading of the next, `(TIME + 715827882) + read(0)`. All sums are taken mod 2^64, so this holds for every `TIME`, including when the accumulator wraps. |
| TimerS3.ClockMonotone | esp-wifi/src/timer_esp32s3.rs:27-35 | With `TIME` at `k` epochs, the clock never decreases along the lexicographic order of (epochs, cycle count). |
| TimerS3.EpochFlooring | esp-wifi/src/timer_esp32s3.rs:27-35 | After `k` overflows with live count `c`, the clock is never above the exact `(k * 2^32 + c) / 6`. It trails that value by exactly `(4k + c % 6) / 6`, which is at most `k`. |
| TimerS3.SetupTimerIsr | esp-wifi/src/timer_esp32s3.rs:37-74 | After setup the stored timer is present, listening and running with period `delay`. `CCOMPARE0` is at its maximum. `TIME` and the pending interrupt bits are unchanged. |
| TimerS3.Timer0 | esp-wifi/src/timer_esp32s3.rs:89-95 | The overflow handler sets `TIME` to `(TIME + 715827882) mod 2^64`, as the wrapping `fetch_add` does. It resets `CCOMPARE0` to its maximum, switches no task and touches nothing else. |
| TimerS3.OverflowAdvancesClock | esp-wifi/src/timer_esp32s3.rs:89-95 | After one overflow, every reading at the same live count is one epoch, 715827882, above the reading before it, mod 2^64. Without a wrap it is exactly one epoch above. |
| TimerS3.Tg1T0Level | esp-wifi/src/timer_esp32s3.rs:154-166 | It calls `task_switch` first, exactly once. Then it acknowledges the timer and restarts it with `delay`. It aborts exactly when no timer is stored, and then the switch has already happened. Its log has exactly three events, and it makes no radio call. |
| TimerS3.Software1 | esp-wifi/src/timer_esp32s3.rs:168-186 | It clears pending bit 29 and no other bit, then calls `task_switch` exactly once. After that it acknowledges the timer and restarts it with `delay`. It aborts after the switch exactly when no timer is stored. Its log has exactly four events. |
| TimerS3.PreemptionLogsExact | esp-wifi/src/timer_esp32s3.rs:154-186 | The two preemption handlers log exactly their own steps, as multisets. `TG1_T0_LEVEL` logs one switch, one acknowledgement and one restart with `delay`. `Software1` logs one clear of bit 29 and the same three. Neither re-arms with another period or acknowledges twice. |
| TimerS3.YieldTask | esp-wifi/src/timer_esp32s3.rs:188-193 | It sets pending bit 29 and no other bit. The timer, `TIME` and `CCOMPARE0` are unchanged, and it performs no switch. |
| TimerS3.Rwble | esp-wifi/src/timer_esp32s3.rs:127-138 | It reads `ISR_INTERRUPT_5`. It makes no call when `fnc` is null and exactly one call `fnc(arg)` otherwise. |
| TimerS3.BtBb | esp-wifi/src/timer_esp32s3.rs:140-152 | It reads `ISR_INTERRUPT_8`. It makes no call when `fnc` is null and exactly one call `fnc(arg)` otherwise. |
| TimerS3.StepKeepsArmed | esp-wifi/src/timer_esp32s3.rs:89-186 | Once the timer is armed, every handler returns normally and keeps it armed with `delay`, for every value of `TIME`. Switches and radio calls match the line. |
| TimerS3.RunKeepsArmed | esp-wifi/src/timer_esp32s3.rs:89-186 | Once the timer is armed, any interrupt sequence runs without abort and keeps the timer armed, for every value of `TIME`. There is one `task_switch` per preemption interrupt and one radio call per bound radio interrupt. |
| TimerS3.StepAdvancesTime | esp-wifi/src/timer_esp32s3.rs:89-186 | A handler that returns moves `TIME` by one epoch mod 2^64 if it is `Timer0`, and leaves it unchanged otherwise. |
| TimerS3.RunAdvancesTime | esp-wifi/src/timer_esp32s3.rs:89-186 | A sequence that runs to the end leaves `TIME` at `(TIME + k * 715827882) mod 2^64`, where `k` is its number of overflow interrupts. |
| TimerS3.TimeAfterOverflows | esp-wifi/src/timer_esp32s3.rs:25 | Starting from `TIME = 0`, after `k` overflows `TIME` is `k * 715827882`. |
| TimerS3.MissingTimerAborts | esp-wifi/src/timer_esp32s3.rs:154-186 | With no timer stored, a sequence that contains a preemption interrupt aborts. |
| TimerS3.YieldThenInterrupt | esp-wifi/src/timer_esp32s3.rs:168-193 | A yield followed by `Software1` switches exactly once. Every pending bit other than 29 is as before the yield, and bit 29 ends clear. The timer is armed with `delay` and acknowledged. |

## Left out

- Register and CPU access are not modelled as such: PAC reads and writes, `get_cycle_count`, `set_ccompare0` and the `wsr.intset`/`wsr.intclear` instructions. Values read are inputs and writes are state fields.
- The valid-bit poll of the esp32c2 read has no bound in the code; the hardware guarantees it ends. Here the successive status values are a finite input that must contain a valid word.
- `interrupt::enable`, the priorities, the global interrupt enable and `enable_mask` are HAL calls outside this core. A failed enable (`unwrap!` on its result) is not modelled.
- The busy-wait on `FIRST_SWITCH` at the end of both setups is left out. It is cross-context synchronisation and ends only when the scheduler clears the flag.
- `task_switch`, the trap frame and the radio callbacks are collaborators. Each call is one log event. The `transmute` of the function pointer, `memory_fence`, atomic orderings and `critical_section`/`RefCell` are not modelled. Each critical section is one atomic step.
- Interleavings of interrupts are not modelled. Handlers run one at a time, to completion. This includes the window between the cycle counter wrapping and the `Timer0` handler running: a read in that window would see the old `TIME` with a small count. The model takes the overflow to coincide with the wrap.
- `trace!` logging has no observable effect and is left out.
- The `wifi`/`ble` feature selection is left out. All radio handlers are always present.
- `COUNTER_BIT_MASK` is not modelled as a separate constant. The code never applies it. On esp32s3 it is all ones, so `TIME` wraps mod 2^64, which is what the model does. The width of the esp32c2 high register is not part of this model.
- The HAL's `Alarm` and `Timer` internals are not modelled. `into_periodic`, `set_period`, `clear_interrupt`, `interrupt_enable`, `listen` and `start` are field updates on an abstract alarm or timer. `start` programs and runs the timer and does not touch its pending flag.
- The conversion of `TIMER_DELAY` from a frequency to a period is not modelled. The value handed to the hardware is the opaque parameter `delay`.
- Rust debug builds panic on `u64` overflow. The model uses wrapping, as release builds do. `fetch_add` on `TIME` wraps in either build. The clock lemmas that compare plain sums (`ClockMonotoneInEpoch`, `ClockMonotone`, `EpochFlooring`, `TimeAfterOverflows`) require the sums to stay within 64 bits.
