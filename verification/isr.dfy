/**
  Vocabulary shared by both timer backends: the optional hardware handle,
  what a handler does that can be observed from outside (calls into the
  scheduler and the radio firmware, acknowledgements of the tick hardware),
  how a handler ends (normally, or aborted by `unwrap!` on a missing
  handle), and the radio interrupt bindings.
 */
module Isr {

  datatype Option<+T> = None | Some(value: T)

  /** A raw pointer value; `NULL` is the null pointer. */
  type Addr = nat

  const NULL: Addr := 0

  /** What a handler does, in order, that is visible outside the core. */
  datatype Event =
    | TaskSwitch                        // `task_switch(trap_frame)`
    | Callback(fnc: Addr, arg: Addr)    // a radio firmware handler `fnc(arg)`
    | TickAcked                         // the tick timer's interrupt flag cleared
    | TickArmed(period: nat)            // the tick timer (re)programmed with `period`
    | SoftIntrCleared                   // the software-yield interrupt acknowledged

  /** The end of one handler invocation: it returns with a new state, or
      `unwrap!` finds no hardware handle and aborts. Either way `log` holds
      what the handler did before it stopped. */
  datatype Outcome<S> = Ran(after: S, log: seq<Event>) | Aborted(log: seq<Event>)

  /** One radio interrupt binding, `(fnc, arg)` as the radio adapter stores it. */
  datatype Binding = Binding(fnc: Addr, arg: Addr)

  /** The radio adapters' `ISR_INTERRUPT_n` statics, by `n`. They belong to
      two adapters: slot 1 to the Wi-Fi OS adapter (`wifi::os_adapter`), the
      other slots to the BLE adapter's chip-specific part (`ble::npl` on
      esp32c2, `ble::btdm` on esp32s3). One map keyed by `n` is enough
      because on each chip the slot numbers the handlers read are distinct
      (1, 4 and 7 on esp32c2; 1, 5 and 8 on esp32s3). A slot the adapter
      never wrote holds the null binding it was initialised with. */
  type Bindings = map<nat, Binding>

  function Lookup(table: Bindings, slot: nat): (b: Binding)
    ensures slot !in table ==> b.fnc == NULL
  {
    if slot in table then table[slot] else Binding(NULL, NULL)
  }

  function Switches(log: seq<Event>): nat
  {
    if log == [] then 0
    else (if log[0] == TaskSwitch then 1 else 0) + Switches(log[1..])
  }

  function Callbacks(log: seq<Event>): nat
  {
    if log == [] then 0
    else (if log[0].Callback? then 1 else 0) + Callbacks(log[1..])
  }

  /** `e1` occurs in `log` at some point before `e2`. */
  predicate Precedes(log: seq<Event>, e1: Event, e2: Event)
  {
    exists i, j :: 0 <= i < j < |log| && log[i] == e1 && log[j] == e2
  }

  lemma {:induction false} SwitchesAppend(a: seq<Event>, b: seq<Event>)
    ensures Switches(a + b) == Switches(a) + Switches(b)
    decreases |a|
  {
    if a != [] {
      assert (a + b)[1..] == a[1..] + b;
      SwitchesAppend(a[1..], b);
    } else {
      assert a + b == b;
    }
  }

  lemma {:induction false} CallbacksAppend(a: seq<Event>, b: seq<Event>)
    ensures Callbacks(a + b) == Callbacks(a) + Callbacks(b)
    decreases |a|
  {
    if a != [] {
      assert (a + b)[1..] == a[1..] + b;
      CallbacksAppend(a[1..], b);
    } else {
      assert a + b == b;
    }
  }

  /** `log` is what a radio handler reading binding `b` must do: no task
      switch, no call at all for a null `fnc`, and otherwise exactly one call,
      to `fnc` with the stored `arg`. */
  predicate DispatchesTo(log: seq<Event>, b: Binding)
  {
    && Switches(log) == 0
    && Callbacks(log) == (if b.fnc == NULL then 0 else 1)
    && forall e :: e in log ==> e == Callback(b.fnc, b.arg)
  }

  /** The body shared by every radio interrupt handler: read the binding,
      call `fnc(arg)` when `fnc` is not null, do nothing otherwise. */
  function Dispatch(b: Binding): (log: seq<Event>)
    ensures DispatchesTo(log, b)
  {
    if b.fnc != NULL then [Callback(b.fnc, b.arg)] else []
  }

  /** Radio adapter slot `ISR_INTERRUPT_1`. */
  const WIFI_SLOT: nat := 1

  /** The `WIFI_MAC` and the `WIFI_PWR` handler. Both chips have both, and all
      four read the same binding, `ISR_INTERRUPT_1`. */
  function WifiInterrupt(table: Bindings): (log: seq<Event>)
    ensures DispatchesTo(log, Lookup(table, WIFI_SLOT))
  {
    Dispatch(Lookup(table, WIFI_SLOT))
  }

  /** How many of `irqs` satisfy `p`. */
  function Count<I>(p: I -> bool, irqs: seq<I>): nat
  {
    if irqs == [] then 0
    else (if p(irqs[0]) then 1 else 0) + Count(p, irqs[1..])
  }

  lemma {:induction false} CountAll<I>(p: I -> bool, irqs: seq<I>)
    requires forall i :: 0 <= i < |irqs| ==> p(irqs[i])
    ensures Count(p, irqs) == |irqs|
    decreases |irqs|
  {
    if irqs != [] {
      CountAll(p, irqs[1..]);
    }
  }
}
