/**
 * The sequencer of tulip/shared/sequencer.c as the stateful object it is:
 * the module-level globals become the fields of `TickEngine`, the slot tables
 * become arrays, and every operation is proved to leave exactly the state the
 * value-level functions of `SequencerSpec` describe.
 *
 * The clock `amy_sysclock()` is the parameter `now` (ms), fixed for one call;
 * `mp_sched_schedule(callback, payload)` appends to `log`.
 */
module Sequencer {
  import opened SequencerSpec

  class TickEngine {
    /** `us_per_tick` */
    var usPerTick: nat
    /** `next_amy_tick_us`, the anchor in microseconds */
    var nextTickUs: nat
    /** `sequencer_tick_count` (a 32-bit counter) */
    var tickCount: nat
    /** `sequencer_latency_ms` */
    var latencyMs: nat
    /** `sequencer_running` */
    var running: bool
    /** every call of `mp_sched_schedule`, in order */
    var log: seq<Dispatch>

    /** `sequencer_callbacks` and `sequencer_dividers` */
    const callbacks: array<Obj>
    const dividers: array<nat>
    /** `defer_callbacks`, `defer_args` and `defer_sysclock` */
    const deferCallbacks: array<Obj>
    const deferArgs: array<Obj>
    const deferClock: array<nat>

    ghost predicate Valid()
      reads this`tickCount
    {
      && callbacks.Length == SEQUENCER_SLOTS && dividers.Length == SEQUENCER_SLOTS
      && deferCallbacks.Length == DEFER_SLOTS && deferArgs.Length == DEFER_SLOTS && deferClock.Length == DEFER_SLOTS
      && callbacks != deferCallbacks && callbacks != deferArgs && deferCallbacks != deferArgs
      && dividers != deferClock
      && tickCount < TICK_MODULUS
    }

    /** The deferred table as a value. */
    ghost function Deferred(): Defers
      reads deferCallbacks, deferArgs, deferClock
    {
      Defers(deferCallbacks[..], deferArgs[..], deferClock[..])
    }

    /** What a catch-up pass changes. */
    ghost function State(): Engine
      reads this`tickCount, this`nextTickUs, this`log, deferCallbacks, deferArgs, deferClock
    {
      Engine(tickCount, nextTickUs, Deferred(), log)
    }

    /** What a catch-up pass only reads. */
    ghost function Table(): Periodic
      reads this`usPerTick, this`latencyMs, callbacks, dividers
    {
      Periodic(callbacks[..], dividers[..], usPerTick, latencyMs)
    }

    /** The globals as the program image initialises them (lines 45-60). */
    constructor ()
      ensures Valid() && fresh(callbacks) && fresh(dividers)
      ensures fresh(deferCallbacks) && fresh(deferArgs) && fresh(deferClock)
      ensures usPerTick == 0 && nextTickUs == 0 && tickCount == 0
      ensures latencyMs == DEFAULT_LATENCY_MS && running && log == []
      ensures forall i :: 0 <= i < SEQUENCER_SLOTS ==> callbacks[i] == Null && dividers[i] == 0
      ensures forall i :: 0 <= i < DEFER_SLOTS ==> deferCallbacks[i] == Null && deferArgs[i] == Null && deferClock[i] == 0
    {
      usPerTick, nextTickUs, tickCount := 0, 0, 0;
      latencyMs, running, log := DEFAULT_LATENCY_MS, true, [];
      callbacks := new Obj[SEQUENCER_SLOTS](_ => Null);
      dividers := new nat[SEQUENCER_SLOTS](_ => 0);
      deferCallbacks := new Obj[DEFER_SLOTS](_ => Null);
      deferArgs := new Obj[DEFER_SLOTS](_ => Null);
      deferClock := new nat[DEFER_SLOTS](_ => 0);
    }

    /**
     * `sequencer_recompute`: takes the tick length `u` (the float tempo
     * formula is not modelled) and re-anchors one tick after the clock,
     * whatever the old anchor was, in 32-bit arithmetic (`Reanchor`).
     */
    method Recompute(now: nat, u: nat)
      requires Valid()
      modifies this`usPerTick, this`nextTickUs
      ensures Valid()
      ensures usPerTick == u && nextTickUs == Reanchor(now, u)
    {
      usPerTick := u;
      nextTickUs := Reanchor(now, u);
    }

    /** `sequencer_start`: re-anchors, then sets the running flag. */
    method Start(now: nat, u: nat)
      requires Valid()
      modifies this`usPerTick, this`nextTickUs, this`running
      ensures Valid()
      ensures usPerTick == u && nextTickUs == Reanchor(now, u) && running
    {
      Recompute(now, u);
      running := true;
    }

    /** `sequencer_stop`: clears the running flag and nothing else. */
    method Stop()
      requires Valid()
      modifies this`running
      ensures Valid() && !running
    {
      running := false;
    }

    /**
     * `sequencer_init`: empties both slot tables and re-anchors. The deferred
     * arguments are not cleared, only the callbacks and their clocks.
     */
    method Init(now: nat, u: nat)
      requires Valid()
      modifies this`usPerTick, this`nextTickUs, callbacks, dividers, deferCallbacks, deferClock
      ensures Valid()
      ensures forall i :: 0 <= i < SEQUENCER_SLOTS ==> callbacks[i] == Null && dividers[i] == 0
      ensures forall i :: 0 <= i < DEFER_SLOTS ==> deferCallbacks[i] == Null && deferClock[i] == 0
      ensures deferArgs[..] == old(deferArgs[..])
      ensures usPerTick == u && nextTickUs == Reanchor(now, u)
    {
      for i := 0 to SEQUENCER_SLOTS
        invariant forall k :: 0 <= k < i ==> callbacks[k] == Null && dividers[k] == 0
      {
        callbacks[i] := Null;
        dividers[i] := 0;
      }
      for i := 0 to DEFER_SLOTS
        invariant forall k :: 0 <= k < SEQUENCER_SLOTS ==> callbacks[k] == Null && dividers[k] == 0
        invariant forall k :: 0 <= k < i ==> deferCallbacks[k] == Null && deferClock[k] == 0
        invariant deferArgs[..] == old(deferArgs[..])
      {
        deferCallbacks[i] := Null;
        deferClock[i] := 0;
      }
      Recompute(now, u);
    }

    /** One slot of the sweep (lines 109-113): dispatched with its argument and cleared if it is due. */
    method SweepSlot(now: nat, i: nat)
      requires Valid() && i < DEFER_SLOTS
      modifies this`log, deferCallbacks, deferArgs, deferClock
      ensures Valid() && Table() == old(Table()) && Deferred() == ClearIfDue(old(Deferred()), now, i)
      ensures log == old(log) + SlotFired(old(Deferred()), now, i)
    {
      if deferCallbacks[i] != Null && now > deferClock[i] {
        log := log + [Dispatch(deferCallbacks[i], Arg(deferArgs[i]))];
        deferCallbacks[i] := Null;
        deferClock[i] := 0;
        deferArgs[i] := Null;
      }
    }

    /**
     * One sweep of the deferred table (lines 108-114): every due slot is
     * dispatched with its argument, in slot order, and cleared.
     */
    method SweepDefers(now: nat)
      requires Valid()
      modifies this`log, deferCallbacks, deferArgs, deferClock
      ensures Valid()
      ensures Deferred() == Sweep(old(Deferred()), now) && Table() == old(Table())
      ensures log == old(log) + DeferFired(old(Deferred()), now, DEFER_SLOTS)
    {
      ghost var d0, p := Deferred(), Table();
      SweptUpToStep(d0, now, 0);
      for i := 0 to DEFER_SLOTS
        invariant Valid() && Table() == p && Deferred() == SweptUpTo(d0, now, i)
        invariant log == old(log) + DeferFired(d0, now, i)
      {
        DeferFiredStep(d0, now, i);
        SweptUpToStep(d0, now, i);
        SweepSlot(now, i);
      }
    }

    /**
     * One pass over the periodic table on the current tick (lines 116-123):
     * every slot whose divider is nonzero and divides the tick is dispatched
     * with `payload`, in slot order.
     */
    method FirePeriodic(payload: nat)
      requires Valid()
      modifies this`log
      ensures Valid() && Table() == old(Table())
      ensures log == old(log) + PeriodicFired(Table(), tickCount, payload, SEQUENCER_SLOTS)
    {
      for i := 0 to SEQUENCER_SLOTS
        invariant log == old(log) + PeriodicFired(Table(), tickCount, payload, i)
      {
        PeriodicFiredStep(Table(), tickCount, payload, i);
        if dividers[i] != 0 {
          if tickCount % dividers[i] == 0 {
            log := log + [Dispatch(callbacks[i], TimeMs(payload))];
          }
        }
      }
    }

    /** One iteration of the catch-up loop (lines 105-124). */
    method TickOnce(now: nat)
      requires Valid()
      modifies this`tickCount, this`nextTickUs, this`log, deferCallbacks, deferArgs, deferClock
      ensures Valid() && Table() == old(Table())
      ensures State() == Tick(old(State()), Table(), now)
    {
      ghost var e, p := State(), Table();
      tickCount := NextCount(tickCount);
      SweepDefers(now);
      ghost var swept, fired := Deferred(), log;
      FirePeriodic(nextTickUs / 1000 + latencyMs);
      assert Deferred() == swept && Table() == p;
      nextTickUs := nextTickUs + usPerTick;
      TickOf(e, p, now, Engine(tickCount, nextTickUs, swept, log));
    }

    /**
     * The `j`-th due tick of a pass that started in state `e0`: one more
     * iteration keeps the state on the closed form `AfterTicks`.
     */
    method CatchUpTick(now: nat, ghost e0: Engine, ghost p: Periodic, ghost j: nat)
      requires Valid() && Table() == p && e0.defers.WellFormed() && p.WellFormed()
      requires State() == AfterTicks(e0, p, now, j)
      modifies this`tickCount, this`nextTickUs, this`log, deferCallbacks, deferArgs, deferClock
      ensures Valid() && Table() == p
      ensures State() == AfterTicks(e0, p, now, j + 1)
      ensures nextTickUs == AnchorAt(e0.anchor, p.usPerTick, j + 1)
    {
      AfterTicksStep(e0, p, now, j);
      TickOnce(now);
      AfterTicksFields(e0, p, now, j + 1);
    }

    /**
     * `sequencer_check_and_fill`: the catch-up loop. It ends, and leaves
     * exactly the state `CatchUp` describes; the periodic table, the tempo,
     * the latency and the running flag are left alone.
     */
    method CheckAndFill(now: nat)
      requires Valid() && usPerTick > 0
      modifies this`tickCount, this`nextTickUs, this`log, deferCallbacks, deferArgs, deferClock
      ensures Valid()
      ensures State() == CatchUp(old(State()), old(Table()), now)
    {
      ghost var e0, p := State(), Table();
      ghost var n := TicksDue(e0.anchor, usPerTick, now);
      ghost var j: nat := 0;
      while now >= nextTickUs / 1000
        invariant Valid() && Table() == p
        invariant State() == AfterTicks(e0, p, now, j)
        invariant nextTickUs == AnchorAt(e0.anchor, p.usPerTick, j)
        invariant j <= n
        decreases n - j
      {
        TicksDueAbove(e0.anchor, p.usPerTick, now, j);
        CatchUpTick(now, e0, p, j);
        j := j + 1;
      }
      TicksDueAtMost(e0.anchor, p.usPerTick, now, j);
      assert CatchUp(e0, p, now) == AfterTicks(e0, p, now, j);
    }

    /** One wake-up of the polling driver (line 133): a pass only while running. */
    method Poll(now: nat)
      requires Valid() && (running ==> usPerTick > 0)
      modifies this`tickCount, this`nextTickUs, this`log, deferCallbacks, deferArgs, deferClock
      ensures Valid()
      ensures old(running) ==> State() == CatchUp(old(State()), old(Table()), now)
      ensures !old(running) ==> State() == old(State())
    {
      if running {
        CheckAndFill(now);
      }
    }
  }
}
