/**
 * Value-level specification of the sequencer tick engine of
 * tulip/shared/sequencer.c: the two slot tables, one tick of
 * `sequencer_check_and_fill` and the catch-up loop around it, together with
 * the properties the engine promises (exact tick arithmetic, termination,
 * at-most-once deferred callbacks, the divider rule, ordered payloads).
 *
 * The class `Sequencer.TickEngine` holds the same state in arrays and is
 * proved to compute exactly what these functions describe.
 */
module SequencerSpec {

  /** Capacity of the periodic callback table ("up to 4 music callbacks"). */
  const SEQUENCER_SLOTS: nat := 4
  /** Capacity of the deferred one-shot table. */
  const DEFER_SLOTS: nat := 16
  /** `sequencer_tick_count` is a `uint32_t`: it counts modulo 2^32. */
  const TICK_MODULUS: nat := 0x1_0000_0000
  /** `sequencer_latency_ms` as initialised (the header comment says 50). */
  const DEFAULT_LATENCY_MS: nat := 100

  /** A MicroPython object handle; `Null` is the C NULL pointer. */
  datatype Obj = Null | Ref(id: nat)

  /** What `mp_sched_schedule` is handed besides the callback. */
  datatype Payload = TimeMs(ms: nat) | Arg(arg: Obj)

  /** One entry of the dispatch log: a call of `mp_sched_schedule`. */
  datatype Dispatch = Dispatch(callback: Obj, payload: Payload)

  /** The deferred table: `defer_callbacks`, `defer_args`, `defer_sysclock`. */
  datatype Defers = Defers(callbacks: seq<Obj>, args: seq<Obj>, clocks: seq<nat>) {
    predicate WellFormed() { |callbacks| == |args| == |clocks| }
  }

  /** What one catch-up pass reads but never writes. */
  datatype Periodic = Periodic(callbacks: seq<Obj>, dividers: seq<nat>, usPerTick: nat, latencyMs: nat) {
    predicate WellFormed() { |callbacks| == |dividers| }
  }

  /** What one catch-up pass changes, plus the dispatch log. */
  datatype Engine = Engine(tickCount: nat, anchor: nat, defers: Defers, log: seq<Dispatch>)

  /** A deferred slot is due: it holds a callback and its time has strictly passed. */
  predicate DeferDue(callback: Obj, clock: nat, now: nat) {
    callback != Null && now > clock
  }

  /** A periodic slot fires on tick `tick`: it has a divider and the divider divides the tick. */
  predicate Fires(divider: nat, tick: nat) {
    divider != 0 && tick % divider == 0
  }

  /** The loop condition: the clock (ms) has reached the anchor (us) in whole ms. */
  predicate IsDue(anchor: nat, now: nat) {
    now >= anchor / 1000
  }

  /** `sequencer_tick_count++` on a `uint32_t`: from 2^32 - 1 the counter wraps to 0. */
  function NextCount(t: nat): (r: nat)
    ensures r < TICK_MODULUS
  {
    if t + 1 < TICK_MODULUS then t + 1 else 0
  }

  /** The tick count after `k` increments from `t`. */
  function CountAt(t: nat, k: nat): (r: nat)
  {
    if k == 0 then t else NextCount(CountAt(t, k - 1))
  }

  /**
   * `sequencer_recompute`'s re-anchor, line 69: `amy_sysclock()*1000 + us_per_tick`
   * is evaluated in 32-bit unsigned arithmetic (the clock is a `uint32_t`)
   * and only then stored in the 64-bit anchor.
   */
  function Reanchor(now: nat, usPerTick: nat): (r: nat)
    ensures r < TICK_MODULUS
    ensures now * 1000 + usPerTick < TICK_MODULUS ==> r == now * 1000 + usPerTick
    ensures now * 1000 + usPerTick >= TICK_MODULUS ==> r < now * 1000 + usPerTick
  {
    (now * 1000 + usPerTick) % TICK_MODULUS
  }

  /** The anchor `k` ticks after `anchor`. */
  function AnchorAt(anchor: nat, usPerTick: nat, k: nat): (r: nat)
    ensures r >= anchor
  {
    if k == 0 then anchor else AnchorAt(anchor, usPerTick, k - 1) + usPerTick
  }

  // ---------------------------------------------------------------------
  // The deferred table

  /** The indices below `n` of the due deferred slots, in increasing order. */
  function DueSlots(d: Defers, now: nat, n: nat): (r: seq<nat>)
    requires d.WellFormed() && n <= |d.callbacks|
    ensures forall k :: 0 <= k < |r| ==> r[k] < n && DeferDue(d.callbacks[r[k]], d.clocks[r[k]], now)
    ensures forall j, k :: 0 <= j < k < |r| ==> r[j] < r[k]
  {
    if n == 0 then []
    else DueSlots(d, now, n - 1) + (if DeferDue(d.callbacks[n - 1], d.clocks[n - 1], now) then [n - 1] else [])
  }

  /** Every due slot is among the due slots: with the ensures of `DueSlots`, an if-and-only-if. */
  lemma {:induction false} DueSlotsComplete(d: Defers, now: nat, n: nat, i: nat)
    requires d.WellFormed() && n <= |d.callbacks|
    requires i < n && DeferDue(d.callbacks[i], d.clocks[i], now)
    ensures i in DueSlots(d, now, n)
  {
    if i < n - 1 {
      DueSlotsComplete(d, now, n - 1, i);
    }
  }

  /** The dispatches of one sweep over the first `n` deferred slots, in slot order. */
  function DeferFired(d: Defers, now: nat, n: nat): (r: seq<Dispatch>)
    requires d.WellFormed() && n <= |d.callbacks|
    ensures |r| == |DueSlots(d, now, n)|
    ensures forall k :: 0 <= k < |r| ==> r[k].callback != Null && r[k].payload.Arg?
  {
    var slots := DueSlots(d, now, n);
    seq(|slots|, k requires 0 <= k < |slots| => Dispatch(d.callbacks[slots[k]], Arg(d.args[slots[k]])))
  }

  /** The dispatch of deferred slot `i` alone: its callback with its argument, if it is due. */
  function SlotFired(d: Defers, now: nat, i: nat): (r: seq<Dispatch>)
    requires d.WellFormed() && i < |d.callbacks|
  {
    if DeferDue(d.callbacks[i], d.clocks[i], now) then [Dispatch(d.callbacks[i], Arg(d.args[i]))] else []
  }

  /** Sweeping one more slot appends that slot's dispatch if it is due. */
  lemma DeferFiredStep(d: Defers, now: nat, n: nat)
    requires d.WellFormed() && n < |d.callbacks|
    ensures DeferFired(d, now, n + 1) == DeferFired(d, now, n) + SlotFired(d, now, n)
  {
    var a, b := DeferFired(d, now, n + 1), DeferFired(d, now, n);
    assert DueSlots(d, now, n + 1)
        == DueSlots(d, now, n) + (if DeferDue(d.callbacks[n], d.clocks[n], now) then [n] else []);
    assert forall k :: 0 <= k < |b| ==> a[k] == b[k];
  }

  /** The deferred table after one sweep: every due slot is cleared to NULL/NULL/0. */
  function Sweep(d: Defers, now: nat): (r: Defers)
    requires d.WellFormed()
    ensures r.WellFormed() && |r.callbacks| == |d.callbacks|
    // after a sweep no slot is due any more at this time
    ensures forall i :: 0 <= i < |r.callbacks| ==> !DeferDue(r.callbacks[i], r.clocks[i], now)
    // a slot that was due is freed: callback and argument NULL, clock 0
    ensures forall i :: 0 <= i < |d.callbacks| && DeferDue(d.callbacks[i], d.clocks[i], now) ==>
              r.callbacks[i] == Null && r.args[i] == Null && r.clocks[i] == 0
    // slots that were not due are left exactly as they were
    ensures forall i :: 0 <= i < |d.callbacks| && !DeferDue(d.callbacks[i], d.clocks[i], now) ==>
              r.callbacks[i] == d.callbacks[i] && r.args[i] == d.args[i] && r.clocks[i] == d.clocks[i]
  {
    var n := |d.callbacks|;
    Defers(
      seq(n, i requires 0 <= i < n => if DeferDue(d.callbacks[i], d.clocks[i], now) then Null else d.callbacks[i]),
      seq(n, i requires 0 <= i < n => if DeferDue(d.callbacks[i], d.clocks[i], now) then Null else d.args[i]),
      seq(n, i requires 0 <= i < n => if DeferDue(d.callbacks[i], d.clocks[i], now) then 0 else d.clocks[i]))
  }

  /** The deferred table with slot `i` cleared if it is due: one step of the sweep. */
  function ClearIfDue(d: Defers, now: nat, i: nat): (r: Defers)
    requires d.WellFormed() && i < |d.callbacks|
    ensures r.WellFormed() && |r.callbacks| == |d.callbacks|
  {
    if DeferDue(d.callbacks[i], d.clocks[i], now) then Defers(d.callbacks[i := Null], d.args[i := Null], d.clocks[i := 0])
    else d
  }

  /** The deferred table part way through a sweep: the due slots below `i` are cleared. */
  function SweptUpTo(d: Defers, now: nat, i: nat): (r: Defers)
    requires d.WellFormed()
    ensures r.WellFormed() && |r.callbacks| == |d.callbacks|
  {
    var n := |d.callbacks|;
    Defers(
      seq(n, k requires 0 <= k < n => if k < i && DeferDue(d.callbacks[k], d.clocks[k], now) then Null else d.callbacks[k]),
      seq(n, k requires 0 <= k < n => if k < i && DeferDue(d.callbacks[k], d.clocks[k], now) then Null else d.args[k]),
      seq(n, k requires 0 <= k < n => if k < i && DeferDue(d.callbacks[k], d.clocks[k], now) then 0 else d.clocks[k]))
  }

  /** Clearing slot `i` moves a partial sweep on by one slot, and a full one is `Sweep`. */
  lemma SweptUpToStep(d: Defers, now: nat, i: nat)
    requires d.WellFormed() && i < |d.callbacks|
    ensures SweptUpTo(d, now, 0) == d
    ensures SlotFired(SweptUpTo(d, now, i), now, i) == SlotFired(d, now, i)
    ensures SweptUpTo(d, now, i + 1) == ClearIfDue(SweptUpTo(d, now, i), now, i)
    ensures SweptUpTo(d, now, |d.callbacks|) == Sweep(d, now)
  {
    var s, t := SweptUpTo(d, now, i), SweptUpTo(d, now, i + 1);
    assert s.callbacks[i] == d.callbacks[i] && s.args[i] == d.args[i] && s.clocks[i] == d.clocks[i];
    assert SweptUpTo(d, now, 0).callbacks == d.callbacks;
    assert SweptUpTo(d, now, 0).args == d.args;
    assert SweptUpTo(d, now, 0).clocks == d.clocks;
    assert t.callbacks == ClearIfDue(s, now, i).callbacks;
    assert t.args == ClearIfDue(s, now, i).args;
    assert t.clocks == ClearIfDue(s, now, i).clocks;
  }

  /** A second sweep at the same time fires nothing and changes nothing. */
  lemma SweepIdempotent(d: Defers, now: nat)
    requires d.WellFormed()
    ensures Sweep(Sweep(d, now), now) == Sweep(d, now)
    ensures DeferFired(Sweep(d, now), now, |d.callbacks|) == []
  {
    var s := Sweep(d, now);
    var n := |d.callbacks|;
    NoneDue(s, now, n);
    assert Sweep(s, now).callbacks == s.callbacks;
    assert Sweep(s, now).args == s.args;
    assert Sweep(s, now).clocks == s.clocks;
  }

  /** A table where no slot is due has no due slots. */
  lemma {:induction false} NoneDue(d: Defers, now: nat, n: nat)
    requires d.WellFormed() && n <= |d.callbacks|
    requires forall i :: 0 <= i < n ==> !DeferDue(d.callbacks[i], d.clocks[i], now)
    ensures DueSlots(d, now, n) == []
  {
    if n > 0 {
      NoneDue(d, now, n - 1);
    }
  }

  // ---------------------------------------------------------------------
  // The periodic table

  /** The indices below `n` of the periodic slots that fire on `tick`, in increasing order. */
  function FiringSlots(dividers: seq<nat>, tick: nat, n: nat): (r: seq<nat>)
    requires n <= |dividers|
    ensures forall k :: 0 <= k < |r| ==> r[k] < n && Fires(dividers[r[k]], tick)
    ensures forall j, k :: 0 <= j < k < |r| ==> r[j] < r[k]
  {
    if n == 0 then []
    else FiringSlots(dividers, tick, n - 1) + (if Fires(dividers[n - 1], tick) then [n - 1] else [])
  }

  /**
   * A slot fires on a tick exactly when its divider is nonzero and divides
   * the tick; the callback pointer plays no part, and a zero divider never fires.
   */
  lemma {:induction false} FiringSlotsIff(dividers: seq<nat>, tick: nat, n: nat, i: nat)
    requires n <= |dividers| && i < n
    ensures i in FiringSlots(dividers, tick, n) <==> dividers[i] != 0 && tick % dividers[i] == 0
  {
    if i < n - 1 {
      FiringSlotsIff(dividers, tick, n - 1, i);
    }
  }

  /** The dispatches of one pass over the first `n` periodic slots on tick `tick`. */
  function PeriodicFired(p: Periodic, tick: nat, payload: nat, n: nat): (r: seq<Dispatch>)
    requires p.WellFormed() && n <= |p.dividers|
    ensures |r| == |FiringSlots(p.dividers, tick, n)|
    ensures forall k :: 0 <= k < |r| ==> r[k].payload == TimeMs(payload)
  {
    var slots := FiringSlots(p.dividers, tick, n);
    seq(|slots|, k requires 0 <= k < |slots| => Dispatch(p.callbacks[slots[k]], TimeMs(payload)))
  }

  /** Passing over one more periodic slot appends its dispatch if it fires. */
  lemma PeriodicFiredStep(p: Periodic, tick: nat, payload: nat, n: nat)
    requires p.WellFormed() && n < |p.dividers|
    ensures PeriodicFired(p, tick, payload, n + 1)
         == PeriodicFired(p, tick, payload, n)
            + (if Fires(p.dividers[n], tick) then [Dispatch(p.callbacks[n], TimeMs(payload))] else [])
  {
    var a, b := PeriodicFired(p, tick, payload, n + 1), PeriodicFired(p, tick, payload, n);
    assert FiringSlots(p.dividers, tick, n + 1)
        == FiringSlots(p.dividers, tick, n) + (if Fires(p.dividers[n], tick) then [n] else []);
    assert forall k :: 0 <= k < |b| ==> a[k] == b[k];
  }

  // ---------------------------------------------------------------------
  // The catch-up loop

  /**
   * The number of ticks one pass processes from anchor `anchor`: the loop
   * runs while the clock is at or past the anchor, which grows by `usPerTick`
   * each time, so it stops.
   */
  function TicksDue(anchor: nat, usPerTick: nat, now: nat): nat
    requires usPerTick > 0
    decreases (now + 1) * 1000 - anchor
  {
    if IsDue(anchor, now) then 1 + TicksDue(anchor + usPerTick, usPerTick, now) else 0
  }

  /**
   * `TicksDue` counts exactly the k >= 0 whose anchor `anchor + k * usPerTick`
   * is due: all k below it are due and none from it on.
   */
  lemma {:induction false} TicksDueExact(anchor: nat, usPerTick: nat, now: nat)
    requires usPerTick > 0
    ensures forall k: nat :: k < TicksDue(anchor, usPerTick, now) ==> IsDue(AnchorAt(anchor, usPerTick, k), now)
    ensures forall k: nat :: k >= TicksDue(anchor, usPerTick, now) ==> !IsDue(AnchorAt(anchor, usPerTick, k), now)
    decreases (now + 1) * 1000 - anchor
  {
    var n := TicksDue(anchor, usPerTick, now);
    if IsDue(anchor, now) {
      var a1 := anchor + usPerTick;
      TicksDueExact(a1, usPerTick, now);
      forall k: nat | k < n ensures IsDue(AnchorAt(anchor, usPerTick, k), now) {
        if k > 0 {
          AnchorStep(anchor, usPerTick, k - 1);
        }
      }
      forall k: nat | k >= n ensures !IsDue(AnchorAt(anchor, usPerTick, k), now) {
        AnchorStep(anchor, usPerTick, k - 1);
      }
    } else {
      forall k: nat | k >= n ensures !IsDue(AnchorAt(anchor, usPerTick, k), now) {
        assert AnchorAt(anchor, usPerTick, k) >= anchor;
      }
    }
  }

  /** A loop that stops after j ticks, all of them due, has processed exactly `TicksDue` ticks. */
  lemma TicksDueUnique(anchor: nat, usPerTick: nat, now: nat, j: nat)
    requires usPerTick > 0
    requires forall k: nat :: k < j ==> IsDue(AnchorAt(anchor, usPerTick, k), now)
    requires !IsDue(AnchorAt(anchor, usPerTick, j), now)
    ensures j == TicksDue(anchor, usPerTick, now)
  {
    var n := TicksDue(anchor, usPerTick, now);
    TicksDueExact(anchor, usPerTick, now);
  }

  /** A tick whose anchor is due lies below `TicksDue`. */
  lemma TicksDueAbove(anchor: nat, usPerTick: nat, now: nat, j: nat)
    requires usPerTick > 0 && IsDue(AnchorAt(anchor, usPerTick, j), now)
    ensures j < TicksDue(anchor, usPerTick, now)
  {
    TicksDueExact(anchor, usPerTick, now);
  }

  /** A tick whose anchor is not due lies at or above `TicksDue`. */
  lemma TicksDueAtMost(anchor: nat, usPerTick: nat, now: nat, j: nat)
    requires usPerTick > 0 && !IsDue(AnchorAt(anchor, usPerTick, j), now)
    ensures TicksDue(anchor, usPerTick, now) <= j
  {
    TicksDueExact(anchor, usPerTick, now);
  }

  /**
   * The periodic dispatches of the first `k` ticks of a pass that starts
   * with tick count `t` and anchor `anchor`: tick j (1-based) has number
   * (t + j) mod 2^32 and hands out the time of its anchor in ms plus the latency.
   */
  function PeriodicRun(p: Periodic, t: nat, anchor: nat, k: nat): seq<Dispatch>
    requires p.WellFormed()
  {
    if k == 0 then []
    else PeriodicRun(p, t, anchor, k - 1)
         + PeriodicFired(p, CountAt(t, k), AnchorAt(anchor, p.usPerTick, k - 1) / 1000 + p.latencyMs, |p.dividers|)
  }

  /** One more tick appends the dispatches of that tick. */
  lemma PeriodicRunSnoc(p: Periodic, t: nat, anchor: nat, k: nat)
    requires p.WellFormed()
    ensures PeriodicRun(p, t, anchor, k + 1)
         == PeriodicRun(p, t, anchor, k)
            + PeriodicFired(p, CountAt(t, k + 1), AnchorAt(anchor, p.usPerTick, k) / 1000 + p.latencyMs, |p.dividers|)
  {
  }

  /**
   * One iteration of the catch-up loop: the tick counter goes up by one
   * (modulo 2^32), the deferred table is swept, the periodic slots that fire
   * on the new tick number are dispatched with the anchor in ms plus the
   * latency, and the anchor moves on by one tick.
   */
  function Tick(e: Engine, p: Periodic, now: nat): (r: Engine)
    requires e.defers.WellFormed() && p.WellFormed()
    ensures r.defers.WellFormed() && |r.defers.callbacks| == |e.defers.callbacks|
    ensures r.anchor == e.anchor + p.usPerTick && r.tickCount < TICK_MODULUS
    ensures |r.log| >= |e.log|
  {
    var t := NextCount(e.tickCount);
    Engine(t, e.anchor + p.usPerTick, Sweep(e.defers, now),
           e.log + DeferFired(e.defers, now, |e.defers.callbacks|)
                 + PeriodicFired(p, t, e.anchor / 1000 + p.latencyMs, |p.dividers|))
  }

  /** An engine that agrees with `Tick` field by field is the result of `Tick`. */
  lemma TickOf(e: Engine, p: Periodic, now: nat, r: Engine)
    requires e.defers.WellFormed() && p.WellFormed()
    requires r.tickCount == NextCount(e.tickCount) && r.anchor == e.anchor + p.usPerTick
    requires r.defers == Sweep(e.defers, now)
    requires r.log == e.log + DeferFired(e.defers, now, |e.defers.callbacks|)
                     + PeriodicFired(p, r.tickCount, e.anchor / 1000 + p.latencyMs, |p.dividers|)
    ensures r == Tick(e, p, now)
  {
  }

  /**
   * The state after `j` iterations of the catch-up loop, in closed form: the
   * deferred table is swept (once: a second sweep at the same time finds
   * nothing), every due deferred callback is dispatched before any periodic
   * one, followed by the periodic dispatches of the `j` ticks in order.
   */
  function AfterTicks(e: Engine, p: Periodic, now: nat, j: nat): (r: Engine)
    requires e.defers.WellFormed() && p.WellFormed()
    ensures r.defers.WellFormed() && |r.defers.callbacks| == |e.defers.callbacks|
  {
    if j == 0 then e
    else Engine(CountAt(e.tickCount, j), AnchorAt(e.anchor, p.usPerTick, j), Sweep(e.defers, now),
                e.log + DeferFired(e.defers, now, |e.defers.callbacks|) + PeriodicRun(p, e.tickCount, e.anchor, j))
  }

  /** The closed form agrees with `j` applications of `Tick`. */
  lemma AfterTicksStep(e: Engine, p: Periodic, now: nat, j: nat)
    requires e.defers.WellFormed() && p.WellFormed()
    ensures AfterTicks(e, p, now, j + 1) == Tick(AfterTicks(e, p, now, j), p, now)
  {
    if j == 0 {
      FirstTick(e, p, now);
    } else {
      NextTick(e, p, now, j);
    }
  }

  /** The first iteration from a state is `Tick` itself. */
  lemma FirstTick(e: Engine, p: Periodic, now: nat)
    requires e.defers.WellFormed() && p.WellFormed()
    ensures AfterTicks(e, p, now, 1) == Tick(e, p, now)
  {
    var step := PeriodicFired(p, NextCount(e.tickCount), e.anchor / 1000 + p.latencyMs, |p.dividers|);
    assert AnchorAt(e.anchor, p.usPerTick, 1) == e.anchor + p.usPerTick;
    assert CountAt(e.tickCount, 1) == NextCount(e.tickCount);
    assert PeriodicRun(p, e.tickCount, e.anchor, 1) == [] + step;
  }

  /** A later iteration: the sweep finds nothing new and one more tick of periodic dispatches follows. */
  lemma NextTick(e: Engine, p: Periodic, now: nat, j: nat)
    requires e.defers.WellFormed() && p.WellFormed() && j > 0
    ensures AfterTicks(e, p, now, j + 1) == Tick(AfterTicks(e, p, now, j), p, now)
  {
    var b := AfterTicks(e, p, now, j + 1);
    var c := Tick(AfterTicks(e, p, now, j), p, now);
    SweepIdempotent(e.defers, now);
    NextTickLog(e, p, now, j);
    assert c.tickCount == b.tickCount && c.anchor == b.anchor && c.defers == b.defers;
  }

  /** The log part of `NextTick`. */
  lemma NextTickLog(e: Engine, p: Periodic, now: nat, j: nat)
    requires e.defers.WellFormed() && p.WellFormed() && j > 0
    ensures Tick(AfterTicks(e, p, now, j), p, now).log == AfterTicks(e, p, now, j + 1).log
  {
    var a := AfterTicks(e, p, now, j);
    var step := PeriodicFired(p, CountAt(e.tickCount, j + 1),
                              AnchorAt(e.anchor, p.usPerTick, j) / 1000 + p.latencyMs, |p.dividers|);
    var pre := e.log + DeferFired(e.defers, now, |e.defers.callbacks|);
    var run := PeriodicRun(p, e.tickCount, e.anchor, j);
    AfterTicksFields(e, p, now, j);
    assert Tick(a, p, now).log == a.log + step by {
      SweepIdempotent(e.defers, now);
      TickAfterSweep(a, p, now);
    }
    assert AfterTicks(e, p, now, j + 1).log == pre + (run + step) by {
      AfterTicksFields(e, p, now, j + 1);
      PeriodicRunSnoc(p, e.tickCount, e.anchor, j);
    }
    AppendAssoc(pre, run, step);
  }

  /** The closed form after `j > 0` iterations, field by field. */
  lemma AfterTicksFields(e: Engine, p: Periodic, now: nat, j: nat)
    requires e.defers.WellFormed() && p.WellFormed() && j > 0
    ensures var a := AfterTicks(e, p, now, j);
            && a.tickCount == CountAt(e.tickCount, j)
            && a.anchor == AnchorAt(e.anchor, p.usPerTick, j)
            && a.defers == Sweep(e.defers, now)
            && a.log == e.log + DeferFired(e.defers, now, |e.defers.callbacks|) + PeriodicRun(p, e.tickCount, e.anchor, j)
  {
  }

  /** Regrouping a concatenation of three logs. */
  lemma AppendAssoc(a: seq<Dispatch>, b: seq<Dispatch>, c: seq<Dispatch>)
    ensures a + b + c == a + (b + c)
  {
  }

  /** A tick whose sweep finds nothing only appends the periodic dispatches of its tick. */
  lemma TickAfterSweep(a: Engine, p: Periodic, now: nat)
    requires a.defers.WellFormed() && p.WellFormed()
    requires DeferFired(a.defers, now, |a.defers.callbacks|) == []
    ensures Tick(a, p, now).log
         == a.log + PeriodicFired(p, NextCount(a.tickCount), a.anchor / 1000 + p.latencyMs, |p.dividers|)
  {
    assert a.log + [] == a.log;
  }

  /**
   * The state after `sequencer_check_and_fill` with clock reading `now`:
   * exactly `TicksDue` iterations. If the clock is not yet at the anchor
   * nothing changes.
   */
  function CatchUp(e: Engine, p: Periodic, now: nat): (r: Engine)
    requires e.defers.WellFormed() && p.WellFormed() && p.usPerTick > 0
    ensures r.defers.WellFormed() && |r.defers.callbacks| == |e.defers.callbacks|
    ensures !IsDue(e.anchor, now) ==> r == e
  {
    AfterTicks(e, p, now, TicksDue(e.anchor, p.usPerTick, now))
  }

  /** On exit from a pass the clock is before the anchor: the loop has caught up. */
  lemma CatchUpExit(e: Engine, p: Periodic, now: nat)
    requires e.defers.WellFormed() && p.WellFormed() && p.usPerTick > 0
    ensures now < CatchUp(e, p, now).anchor / 1000
  {
    TicksDueExact(e.anchor, p.usPerTick, now);
    assert !IsDue(AnchorAt(e.anchor, p.usPerTick, TicksDue(e.anchor, p.usPerTick, now)), now);
  }

  /**
   * The tick counter after a pass has advanced by exactly the number of
   * anchors k >= 0 that were due, modulo 2^32, and the anchor by that many ticks.
   */
  lemma CatchUpCount(e: Engine, p: Periodic, now: nat)
    requires e.defers.WellFormed() && p.WellFormed() && p.usPerTick > 0
    requires e.tickCount < TICK_MODULUS
    ensures var n := TicksDue(e.anchor, p.usPerTick, now);
            && CatchUp(e, p, now).tickCount == (e.tickCount + n) % TICK_MODULUS
            && CatchUp(e, p, now).anchor == e.anchor + n * p.usPerTick
            && (forall k: nat :: k < n <==> IsDue(AnchorAt(e.anchor, p.usPerTick, k), now))
  {
    var n := TicksDue(e.anchor, p.usPerTick, now);
    TicksDueExact(e.anchor, p.usPerTick, now);
    AnchorClosedForm(e.anchor, p.usPerTick, n);
    CountClosedForm(e.tickCount, n);
    var r := CatchUp(e, p, now);
    assert r.tickCount == CountAt(e.tickCount, n) && r.anchor == AnchorAt(e.anchor, p.usPerTick, n);
  }

  /**
   * A deferred callback fires at most once: after a pass that ticked, no
   * slot is due at that time any more, and a further pass at the same time
   * changes nothing at all.
   */
  lemma CatchUpDefersOnce(e: Engine, p: Periodic, now: nat)
    requires e.defers.WellFormed() && p.WellFormed() && p.usPerTick > 0
    ensures CatchUp(CatchUp(e, p, now), p, now) == CatchUp(e, p, now)
    ensures IsDue(e.anchor, now) ==>
              var d := CatchUp(e, p, now).defers;
              && (forall i :: 0 <= i < |d.callbacks| ==> !DeferDue(d.callbacks[i], d.clocks[i], now))
              && DeferFired(d, now, |d.callbacks|) == []
              && (forall i :: 0 <= i < |d.callbacks| && DeferDue(e.defers.callbacks[i], e.defers.clocks[i], now) ==>
                    d.callbacks[i] == Null && d.args[i] == Null && d.clocks[i] == 0)
  {
    CatchUpExit(e, p, now);
    if IsDue(e.anchor, now) {
      SweepIdempotent(e.defers, now);
    }
  }

  /**
   * A deferred slot that fires in a pass is freed for good: in the state the
   * pass leaves it is not due at any later clock, so no later pass fires it,
   * and a later pass leaves it free, until a callback is registered there again.
   */
  lemma FiredSlotFreed(e: Engine, p: Periodic, now: nat, later: nat, i: nat)
    requires e.defers.WellFormed() && p.WellFormed() && p.usPerTick > 0 && IsDue(e.anchor, now)
    requires i < |e.defers.callbacks| && DeferDue(e.defers.callbacks[i], e.defers.clocks[i], now)
    ensures var d := CatchUp(e, p, now).defers;
            && i !in DueSlots(d, later, |d.callbacks|)
            && CatchUp(CatchUp(e, p, now), p, later).defers.callbacks[i] == Null
  {
    var a := CatchUp(e, p, now);
    assert a.defers == Sweep(e.defers, now);
    assert a.defers.callbacks[i] == Null;
    if IsDue(a.anchor, later) {
      TicksDueAbove(a.anchor, p.usPerTick, later, 0);
      assert CatchUp(a, p, later).defers == Sweep(a.defers, later);
    }
  }

  /** Every entry carries a timestamp in [lo, hi]. */
  predicate TimesWithin(log: seq<Dispatch>, lo: nat, hi: nat) {
    forall j :: 0 <= j < |log| ==> log[j].payload.TimeMs? && lo <= log[j].payload.ms <= hi
  }

  /** The timestamped entries appear in non-decreasing order of their timestamps. */
  predicate TimesSorted(log: seq<Dispatch>) {
    forall i, j :: 0 <= i < j < |log| && log[i].payload.TimeMs? && log[j].payload.TimeMs? ==>
      log[i].payload.ms <= log[j].payload.ms
  }

  /**
   * Periodic payloads over consecutive ticks lie between the first and the
   * last anchor used (in ms) plus the latency.
   */
  lemma {:induction false} PeriodicRunWithin(p: Periodic, t: nat, anchor: nat, k: nat)
    requires p.WellFormed() && k > 0
    ensures TimesWithin(PeriodicRun(p, t, anchor, k),
                        anchor / 1000 + p.latencyMs, AnchorAt(anchor, p.usPerTick, k - 1) / 1000 + p.latencyMs)
  {
    var last := AnchorAt(anchor, p.usPerTick, k - 1) / 1000 + p.latencyMs;
    var rest := PeriodicRun(p, t, anchor, k - 1);
    var first := PeriodicFired(p, CountAt(t, k), last, |p.dividers|);
    var r := PeriodicRun(p, t, anchor, k);
    assert r == rest + first;
    MsMonotone(anchor, AnchorAt(anchor, p.usPerTick, k - 1));
    if k > 1 {
      PeriodicRunWithin(p, t, anchor, k - 1);
      MsMonotone(AnchorAt(anchor, p.usPerTick, k - 2), AnchorAt(anchor, p.usPerTick, k - 1));
    } else {
      assert rest == [];
    }
    forall j | 0 <= j < |r|
      ensures r[j].payload.TimeMs?
      ensures anchor / 1000 + p.latencyMs <= r[j].payload.ms <= last
    {
      if j >= |rest| {
        assert r[j] == first[j - |rest|];
      } else {
        assert r[j] == rest[j];
      }
    }
  }

  /** Periodic payloads over consecutive ticks never decrease. */
  lemma {:induction false} PeriodicRunSorted(p: Periodic, t: nat, anchor: nat, k: nat)
    requires p.WellFormed()
    ensures TimesSorted(PeriodicRun(p, t, anchor, k))
  {
    if k > 0 {
      var last := AnchorAt(anchor, p.usPerTick, k - 1) / 1000 + p.latencyMs;
      var rest := PeriodicRun(p, t, anchor, k - 1);
      var first := PeriodicFired(p, CountAt(t, k), last, |p.dividers|);
      var r := PeriodicRun(p, t, anchor, k);
      assert r == rest + first;
      if k > 1 {
        PeriodicRunSorted(p, t, anchor, k - 1);
        PeriodicRunWithin(p, t, anchor, k - 1);
        MsMonotone(AnchorAt(anchor, p.usPerTick, k - 2), AnchorAt(anchor, p.usPerTick, k - 1));
      } else {
        assert rest == [];
      }
      SortedAppend(rest, first, last);
    }
  }

  /** Appending entries stamped no earlier than everything before keeps the log sorted. */
  lemma SortedAppend(a: seq<Dispatch>, b: seq<Dispatch>, ms: nat)
    requires TimesSorted(a)
    requires forall i :: 0 <= i < |a| && a[i].payload.TimeMs? ==> a[i].payload.ms <= ms
    requires forall i :: 0 <= i < |b| ==> b[i].payload == TimeMs(ms)
    ensures TimesSorted(a + b)
  {
    var r := a + b;
    forall i, j | 0 <= i < j < |r| && r[i].payload.TimeMs? && r[j].payload.TimeMs?
      ensures r[i].payload.ms <= r[j].payload.ms
    {
      if i >= |a| {
        assert r[i] == b[i - |a|] && r[j] == b[j - |a|];
      } else if j >= |a| {
        assert r[i] == a[i] && r[j] == b[j - |a|];
      } else {
        assert r[i] == a[i] && r[j] == a[j];
      }
    }
  }

  /**
   * Within one pass, the timestamps handed to periodic callbacks never
   * decrease, are never before the entry anchor, and never later than the
   * clock reading plus the latency.
   */
  lemma CatchUpPayloads(e: Engine, p: Periodic, now: nat)
    requires e.defers.WellFormed() && p.WellFormed() && p.usPerTick > 0
    ensures |e.log| <= |CatchUp(e, p, now).log|
    ensures var added := CatchUp(e, p, now).log[|e.log|..];
            && TimesSorted(added)
            && (forall j :: 0 <= j < |added| && added[j].payload.TimeMs? ==>
                  e.anchor / 1000 + p.latencyMs <= added[j].payload.ms <= now + p.latencyMs)
  {
    var n := TicksDue(e.anchor, p.usPerTick, now);
    if n > 0 {
      var fired := DeferFired(e.defers, now, |e.defers.callbacks|);
      var run := PeriodicRun(p, e.tickCount, e.anchor, n);
      var r := CatchUp(e, p, now);
      assert r.log == e.log + (fired + run);
      var added := r.log[|e.log|..];
      assert added == fired + run;
      assert AnchorAt(e.anchor, p.usPerTick, n - 1) / 1000 <= now by {
        TicksDueExact(e.anchor, p.usPerTick, now);
      }
      PeriodicRunWithin(p, e.tickCount, e.anchor, n);
      PeriodicRunSorted(p, e.tickCount, e.anchor, n);
      forall j | 0 <= j < |added| && added[j].payload.TimeMs?
        ensures j >= |fired| && added[j] == run[j - |fired|]
      {
      }
    }
  }

  /**
   * The re-anchor as written, after 4294968 ms (about 71.6 minutes) of
   * uptime with the default tempo (108 BPM, 48 PPQ: 11574 us per tick): the
   * 32-bit product wraps, the anchor lands about 71.6 minutes behind the
   * clock, and the next pass runs more than 370000 ticks in one burst.
   */
  lemma ReanchorLags()
    ensures Reanchor(4294968, 11574) == 12278
    ensures IsDue(Reanchor(4294968, 11574), 4294968)
    ensures TicksDue(Reanchor(4294968, 11574), 11574, 4294968) > 370000
  {
    var a := Reanchor(4294968, 11574);
    assert a == 12278;
    AnchorClosedForm(a, 11574, 370000);
    TicksDueAbove(a, 11574, 4294968, 370000);
  }

  /** The re-anchor computed in 64 bits, as the 64-bit anchor evidently intends. */
  function Reanchor64(now: nat, usPerTick: nat): (r: nat)
    ensures r >= now * 1000
  {
    now * 1000 + usPerTick
  }

  /**
   * Computed in 64 bits, the re-anchor is one tick after the clock: with a
   * tick of at least a millisecond the next pass at the same clock runs no
   * tick at all, and a pass one tick later runs at most one.
   */
  lemma Reanchor64Ahead(now: nat, usPerTick: nat)
    requires usPerTick >= 1000
    ensures Reanchor64(now, usPerTick) - now * 1000 == usPerTick
    ensures !IsDue(Reanchor64(now, usPerTick), now)
    ensures TicksDue(Reanchor64(now, usPerTick), usPerTick, now) == 0
  {
    assert Reanchor64(now, usPerTick) >= (now + 1) * 1000;
    DivLowerBound(Reanchor64(now, usPerTick), now + 1);
  }

  /** A time of at least `(m * 1000)` us is at least `m` whole ms. */
  lemma DivLowerBound(a: nat, m: nat)
    requires a >= m * 1000
    ensures a / 1000 >= m
  {
  }

  /**
   * A running engine whose tick length is 0 (the globals start that way,
   * lines 55 and 60, until `sequencer_recompute` runs) never leaves the
   * catch-up loop once the anchor is due: every iteration leaves the anchor
   * where it was.
   */
  lemma ZeroTickStaysDue(e: Engine, p: Periodic, now: nat, j: nat)
    requires e.defers.WellFormed() && p.WellFormed() && p.usPerTick == 0 && IsDue(e.anchor, now)
    ensures AfterTicks(e, p, now, j).anchor == e.anchor
    ensures IsDue(AfterTicks(e, p, now, j).anchor, now)
  {
    if j > 0 {
      AnchorClosedForm(e.anchor, 0, j);
    }
  }

  /**
   * With tick length 0 every anchor the engine can hold is due: the initial
   * anchor 0, and a re-anchor at any clock up to the current one.
   */
  lemma ZeroTickAnchorsDue(t: nat, now: nat)
    requires t <= now
    ensures IsDue(0, now)
    ensures Reanchor(t, 0) <= t * 1000 && IsDue(Reanchor(t, 0), now)
  {
    assert Reanchor(t, 0) / 1000 <= (t * 1000) / 1000;
  }

  /** Whole milliseconds of a later time are not earlier. */
  lemma MsMonotone(a: nat, b: nat)
    requires a <= b
    ensures a / 1000 <= b / 1000
  {
  }

  /** The anchor `k` ticks on is `k` tick lengths past the start. */
  lemma {:induction false} AnchorClosedForm(anchor: nat, usPerTick: nat, k: nat)
    ensures AnchorAt(anchor, usPerTick, k) == anchor + k * usPerTick
  {
    if k > 0 {
      AnchorClosedForm(anchor, usPerTick, k - 1);
      assert (k - 1) * usPerTick + usPerTick == k * usPerTick;
    }
  }

  /** Starting one tick later is the same as one more tick from the start. */
  lemma {:induction false} AnchorStep(anchor: nat, usPerTick: nat, k: nat)
    ensures AnchorAt(anchor + usPerTick, usPerTick, k) == AnchorAt(anchor, usPerTick, k + 1)
  {
    if k > 0 {
      AnchorStep(anchor, usPerTick, k - 1);
    }
  }

  /** The wrapping increment is the increment modulo 2^32. */
  lemma NextCountWraps(t: nat)
    requires t < TICK_MODULUS
    ensures NextCount(t) == (t + 1) % TICK_MODULUS
  {
    if t + 1 == TICK_MODULUS {
      assert (t + 1) % TICK_MODULUS == 0;
    }
  }

  /** `k` wrapping increments from a 32-bit count add `k` modulo 2^32. */
  lemma {:induction false} CountClosedForm(t: nat, k: nat)
    requires t < TICK_MODULUS
    ensures CountAt(t, k) == (t + k) % TICK_MODULUS
  {
    if k > 0 {
      CountClosedForm(t, k - 1);
      WrapStep(t + (k - 1), CountAt(t, k - 1));
    }
  }

  /** Incrementing the residue of `a` gives the residue of `a + 1`. */
  lemma WrapStep(a: nat, c: nat)
    requires c == a % TICK_MODULUS
    ensures NextCount(c) == (a + 1) % TICK_MODULUS
  {
    NextCountWraps(c);
    ModAddLeft(a, 1);
  }

  /** Reducing modulo 2^32 before adding does not change the residue. */
  lemma ModAddLeft(a: nat, n: nat)
    ensures (a % TICK_MODULUS + n) % TICK_MODULUS == (a + n) % TICK_MODULUS
  {
    var q := a / TICK_MODULUS;
    assert a == q * TICK_MODULUS + a % TICK_MODULUS;
    ModShift(a % TICK_MODULUS + n, q);
  }

  /** Adding a multiple of 2^32 does not change the residue. */
  lemma ModShift(x: nat, q: nat)
    ensures (x + q * TICK_MODULUS) % TICK_MODULUS == x % TICK_MODULUS
  {
    var r := x % TICK_MODULUS;
    var d := x / TICK_MODULUS;
    assert x == d * TICK_MODULUS + r;
    assert x + q * TICK_MODULUS == (d + q) * TICK_MODULUS + r;
  }
}
