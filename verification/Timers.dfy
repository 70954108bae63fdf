/**
 The four hardware timers (src/core/timers.cpp).

 A running timer is not ticked: the emulator stores the counter value at a timestamp and the cycle of
 the next overflow. This module gives that event machine as functions on the four channels; module
 TimerReference gives the cycle-by-cycle machine it has to agree with.
 */
module Timers {
  import opened Basics

  /** The bits of TMxCNT_H that the hardware keeps: 0-1, 2, 6 and 7. */
  datatype Control = Control(prescaler: nat, countUp: bool, irq: bool, enable: bool)

  /** `value & 0x00C7`, with the count-up bit of timer 0 forced to zero. */
  function DecodeControl(index: nat, value: nat): Control {
    Control(value % 4, index != 0 && (value / 4) % 2 == 1, (value / 64) % 2 == 1, (value / 128) % 2 == 1)
  }

  /** Cycles per tick, `1 << shift` for the shifts 0, 6, 8 and 10. */
  function Period(prescaler: nat): (p: nat)
    ensures p > 0
  {
    if prescaler == 0 then 1 else if prescaler == 1 then 64 else if prescaler == 2 then 256 else 1024
  }

  datatype Channel = Channel(
    reload: nat, pendingReload: nat, reloadPending: bool, reloadAt: nat,
    control: Control, pendingControl: Control, controlPending: bool, controlAt: nat,
    counter: nat, running: bool, started: int, nextEvent: nat, period: nat)
  {
    predicate Counting() {
      running && !control.countUp
    }

    /** Ticks since the timestamp (counter_delta_since_last_update). */
    function Ticks(now: int): nat
      requires period > 0
    {
      if !Counting() || now <= started then 0 else (now - started) / period
    }

    /** start_channel: the timestamp may lie one cycle ahead of `now`. */
    function Start(now: nat, offset: int): Channel {
      var cycles := (0x10000 - counter) * period - offset;
      this.(running := true, started := now - offset, nextEvent := now + Max(cycles, 1))
    }

    /** stop_channel: freeze the visible counter. */
    function Stop(now: nat): Channel
      requires period > 0
    {
      this.(counter := (counter + Ticks(now)) % 0x10000, running := false, started := now, nextEvent := NEVER)
    }

    /** The value stop_channel returns: the counter has run past 0xFFFF unserviced. */
    predicate StopOverflows(now: nat)
      requires period > 0
    {
      counter + Ticks(now) >= 0x10000
    }

    function ApplyReload(): Channel {
      this.(reload := pendingReload, reloadPending := false, reloadAt := NEVER)
    }

    /** A control write takes effect on a stopped channel at cycle `now`. */
    function ApplyControl(now: nat): Channel
      requires period > 0
    {
      var previous := control.enable;
      var ch := this.(control := pendingControl, period := Period(pendingControl.prescaler));
      if !ch.control.enable then ch.(nextEvent := NEVER)
      else if ch.control.countUp then
        ch.(counter := if previous then ch.counter else ch.reload, running := false, started := now, nextEvent := NEVER)
      else
        var offset := now % ch.period;
        if previous then ch.Start(now, offset)
        else if ch.counter == 0xFFFF && offset == 0 then ch.Start(now, 0)
        else ch.(counter := ch.reload).Start(now, offset - 1)
    }
  }

  /** What a timer does to the rest of the machine: one entry per overflow, in the order they happen. */
  datatype Overflowed = Overflowed(timer: nat, cycle: nat, irq: bool)

  datatype Step = Step(channels: Bank, log: seq<Overflowed>)

  /** Four channels whose periods are never zero. */
  type Bank = s: seq<Channel> | |s| == 4 && forall i :: 0 <= i < 4 ==> s[i].period > 0
    witness seq(4, _ => ResetChannel())

  function ResetChannel(): Channel {
    Channel(0, 0, false, NEVER, Control(0, false, false, false), Control(0, false, false, false), false, NEVER,
            0, false, 0, NEVER, 1)
  }

  /** overflow(): reload, report, clock the next timer, restart. */
  function Overflow(chs: Bank, i: nat, now: nat): Step
    requires i < 4
    decreases 4 - i, 1
  {
    var rest := TickAbove(chs[i := chs[i].(counter := chs[i].reload, started := now)], i, now);
    var ch := rest.channels[i];
    var ch' := if ch.Counting() then ch.Start(now, 0) else ch.(nextEvent := NEVER);
    Step(rest.channels[i := ch'], [Overflowed(i, now, chs[i].control.irq)] + rest.log)
  }

  function TickAbove(chs: Bank, i: nat, now: nat): Step
    requires i < 4
    decreases 4 - i, 0
  {
    if i + 1 < 4 then TickCascade(chs, i + 1, now) else Step(chs, [])
  }

  /** tick_cascade(): a count-up timer advances when the one below it overflows. */
  function TickCascade(chs: Bank, i: nat, now: nat): Step
    requires i < 4
    decreases 4 - i, 2
  {
    var ch := chs[i];
    if !ch.control.enable || !ch.control.countUp then Step(chs, [])
    else
      var ticked := chs[i := ch.(counter := (ch.counter + 1) % 0x10000)];
      if ticked[i].counter == 0 then Overflow(ticked, i, now) else Step(ticked, [])
  }

  // ---- the event queue ----------------------------------------------------------------------

  /**
   The twelve event slots in service order within one cycle: the overflows of timers 0-3, then the
   reload writes, then the control writes.
   */
  const SLOTS: nat := 12

  function Due(chs: Bank, slot: nat): nat
    requires slot < SLOTS
  {
    var ch := chs[slot % 4];
    if slot < 4 then if ch.Counting() then ch.nextEvent else NEVER
    else if slot < 8 then if ch.reloadPending then ch.reloadAt else NEVER
    else if ch.controlPending then ch.controlAt else NEVER
  }

  /** The slot the next event comes from: earliest cycle first, then service order. */
  ghost predicate IsNext(chs: Bank, limit: nat, slot: nat)
  {
    slot < SLOTS && Due(chs, slot) <= limit &&
    forall j :: 0 <= j < SLOTS ==> Due(chs, slot) < Due(chs, j) || (Due(chs, slot) == Due(chs, j) && slot <= j)
  }

  /** No event is due at or before `limit`. */
  predicate Quiet(chs: Bank, limit: int) {
    forall j :: 0 <= j < SLOTS ==> Due(chs, j) > limit
  }

  /** The best of the first `n` slots, or None. */
  function BestOf(chs: Bank, limit: nat, n: nat): (best: Option<nat>)
    requires n <= SLOTS
    ensures best.Some? ==> best.value < n && Due(chs, best.value) <= limit
    ensures best.Some? ==> forall j :: 0 <= j < n ==>
      Due(chs, best.value) < Due(chs, j) || (Due(chs, best.value) == Due(chs, j) && best.value <= j)
    ensures best.None? ==> forall j :: 0 <= j < n ==> Due(chs, j) > limit
  {
    if n == 0 then None
    else
      var best := BestOf(chs, limit, n - 1);
      var cycle := Due(chs, n - 1);
      if cycle > limit then best
      else if best.None? || cycle < Due(chs, best.value) then Some(n - 1) else best
  }

  function NextSlot(chs: Bank, limit: nat): (slot: Option<nat>)
    ensures slot.Some? <==> !Quiet(chs, limit)
    ensures slot.Some? ==> IsNext(chs, limit, slot.value)
  {
    BestOf(chs, limit, 3 * |chs|)
  }

  /** A due control write first stops the running channel. */
  function StopForControl(chs: Bank, i: nat, now: nat): Step
    requires i < 4
  {
    var taken := chs[i := chs[i].(controlPending := false, controlAt := NEVER)];
    if !taken[i].running then Step(taken, [])
    else
      var stopped := taken[i := taken[i].Stop(now)];
      if taken[i].StopOverflows(now) then Overflow(stopped, i, now) else Step(stopped, [])
  }

  /** Service one event slot at its cycle. */
  function Service(chs: Bank, slot: nat): Step
    requires slot < SLOTS
  {
    var i := slot % 4;
    var now := Due(chs, slot);
    if slot < 4 then Overflow(chs, i, now)
    else if slot < 8 then Step(chs[i := chs[i].ApplyReload()], [])
    else
      var step := StopForControl(chs, i, now);
      Step(step.channels[i := step.channels[i].ApplyControl(now)], step.log)
  }

  // ---- termination --------------------------------------------------------------------------

  function WritesOf(ch: Channel): nat {
    Bit(ch.reloadPending) + Bit(ch.controlPending)
  }

  function PendingWrites(chs: Bank): nat {
    WritesOf(chs[0]) + WritesOf(chs[1]) + WritesOf(chs[2]) + WritesOf(chs[3])
  }

  function Below(limit: nat, due: nat): nat { if due <= limit then limit + 1 - due else 0 }

  /** How far the next overflows lie below the limit, added up. */
  function Distance(chs: Bank, limit: nat): nat {
    Below(limit, Due(chs, 0)) + Below(limit, Due(chs, 1)) + Below(limit, Due(chs, 2)) + Below(limit, Due(chs, 3))
  }

  /** Equal but for what ticking changes. */
  predicate SameSetup(a: Channel, b: Channel) {
    a == b.(counter := a.counter, started := a.started, nextEvent := a.nextEvent)
  }

  predicate Cascades(ch: Channel) {
    ch.control.enable && ch.control.countUp
  }

  /** `out` differs from `chs` only in the tick state of count-up channels from `i` on. */
  ghost predicate CascadeFrame(chs: Bank, out: Bank, i: nat) {
    && (forall j :: 0 <= j < 4 ==> SameSetup(out[j], chs[j]))
    && (forall j :: 0 <= j < 4 && (j < i || !Cascades(chs[j])) ==> out[j] == chs[j])
  }

  lemma {:induction false} TickCascadeFrame(chs: Bank, i: nat, now: nat)
    requires i < 4
    ensures CascadeFrame(chs, TickCascade(chs, i, now).channels, i)
    decreases 4 - i, 1
  {
    var ch := chs[i];
    var ticked := chs[i := ch.(counter := (ch.counter + 1) % 0x10000)];
    if Cascades(ch) && ticked[i].counter == 0 {
      OverflowFrame(ticked, i, now);
      var out := Overflow(ticked, i, now).channels;
      assert TickCascade(chs, i, now).channels == out;
      assert CascadeFrame(ticked, out[i := ticked[i]], i + 1);
      CascadeFrameFromAbove(chs, ticked, out, i);
    }
  }

  lemma CascadeFrameFromAbove(chs: Bank, ticked: Bank, out: Bank, i: nat)
    requires i < 4 && Cascades(chs[i]) && ticked == chs[i := ticked[i]] && SameSetup(ticked[i], chs[i])
    requires SameSetup(out[i], ticked[i]) && CascadeFrame(ticked, out[i := ticked[i]], i + 1)
    ensures CascadeFrame(chs, out, i)
  {
    var rest := out[i := ticked[i]];
    forall j | 0 <= j < 4
      ensures SameSetup(out[j], chs[j])
      ensures j < i || !Cascades(chs[j]) ==> out[j] == chs[j]
    {
      assert SameSetup(rest[j], ticked[j]);
    }
  }

  /** An overflow restarts its own channel and otherwise reaches only count-up channels above it. */
  lemma {:induction false} OverflowFrame(chs: Bank, i: nat, now: nat)
    requires i < 4
    ensures var out := Overflow(chs, i, now).channels;
      && SameSetup(out[i], chs[i])
      && CascadeFrame(chs, out[i := chs[i]], i + 1)
      && (chs[i].Counting() ==> out[i] == chs[i].(counter := chs[i].reload).Start(now, 0))
      && (!chs[i].Counting() ==> out[i] == chs[i].(counter := chs[i].reload, started := now, nextEvent := NEVER))
    decreases 4 - i, 0
  {
    if i + 1 < 4 {
      TickCascadeFrame(chs[i := chs[i].(counter := chs[i].reload, started := now)], i + 1, now);
    }
  }

  lemma OverflowKeepsOtherEvents(chs: Bank, i: nat, now: nat)
    requires i < 4
    ensures var out := Overflow(chs, i, now).channels;
      forall k :: 0 <= k < SLOTS && k != i ==> Due(out, k) == Due(chs, k)
  {
    OverflowFrame(chs, i, now);
    var out := Overflow(chs, i, now).channels;
    assert CascadeFrame(chs, out[i := chs[i]], i + 1);
    forall k | 0 <= k < SLOTS && k != i
      ensures Due(out, k) == Due(chs, k)
    {
      assert SameSetup(out[k % 4], chs[k % 4]);
    }
  }

  lemma SameSetupSameWrites(a: Bank, b: Bank)
    requires forall j :: 0 <= j < 4 ==> SameSetup(a[j], b[j])
    ensures PendingWrites(a) == PendingWrites(b)
  {
    assert SameSetup(a[0], b[0]) && SameSetup(a[1], b[1]) && SameSetup(a[2], b[2]) && SameSetup(a[3], b[3]);
  }

  lemma OverflowSetup(chs: Bank, i: nat, now: nat)
    requires i < 4
    ensures forall j :: 0 <= j < 4 ==> SameSetup(Overflow(chs, i, now).channels[j], chs[j])
  {
    OverflowFrame(chs, i, now);
    var out := Overflow(chs, i, now).channels;
    assert CascadeFrame(chs, out[i := chs[i]], i + 1);
    forall j | 0 <= j < 4
      ensures SameSetup(out[j], chs[j])
    {
      assert SameSetup(out[i := chs[i]][j], chs[j]);
    }
  }

  lemma OverflowDecreases(chs: Bank, limit: nat, i: nat)
    requires i < 4 && Due(chs, i) <= limit < NEVER
    ensures var out := Overflow(chs, i, Due(chs, i)).channels;
      PendingWrites(out) == PendingWrites(chs) && Distance(out, limit) < Distance(chs, limit)
  {
    var now := Due(chs, i);
    OverflowSetup(chs, i, now);
    SameSetupSameWrites(Overflow(chs, i, now).channels, chs);
    OverflowKeepsOtherEvents(chs, i, now);
    OverflowFrame(chs, i, now);
  }

  lemma StopForControlWrites(chs: Bank, i: nat, now: nat)
    requires i < 4 && chs[i].controlPending
    ensures PendingWrites(StopForControl(chs, i, now).channels) == PendingWrites(chs) - 1
  {
    var taken := chs[i := chs[i].(controlPending := false, controlAt := NEVER)];
    if taken[i].running {
      var stopped := taken[i := taken[i].Stop(now)];
      if taken[i].StopOverflows(now) {
        OverflowSetup(stopped, i, now);
        SameSetupSameWrites(Overflow(stopped, i, now).channels, stopped);
      }
    }
  }

  lemma ControlWriteDecreases(chs: Bank, slot: nat)
    requires 8 <= slot < SLOTS && Due(chs, slot) < NEVER
    ensures PendingWrites(Service(chs, slot).channels) < PendingWrites(chs)
  {
    var i, now := slot % 4, Due(chs, slot);
    StopForControlWrites(chs, i, now);
    ApplyControlWrites(StopForControl(chs, i, now).channels, i, now);
  }

  lemma ApplyControlWrites(chs: Bank, i: nat, now: nat)
    requires i < 4
    ensures PendingWrites(chs[i := chs[i].ApplyControl(now)]) == PendingWrites(chs)
  {
    assert WritesOf(chs[i].ApplyControl(now)) == WritesOf(chs[i]);
  }

  lemma ServiceDecreases(chs: Bank, limit: nat, slot: nat)
    requires slot < SLOTS && Due(chs, slot) <= limit < NEVER
    ensures var out := Service(chs, slot).channels;
      PendingWrites(out) < PendingWrites(chs) ||
      (PendingWrites(out) == PendingWrites(chs) && Distance(out, limit) < Distance(chs, limit))
  {
    if slot < 4 {
      OverflowDecreases(chs, limit, slot);
    } else if 8 <= slot {
      ControlWriteDecreases(chs, slot);
    }
  }

  // ---- advancing ----------------------------------------------------------------------------

  /** advance_to(): service every event up to `limit` in order. */
  function AdvanceTo(chs: Bank, limit: nat): (out: Step)
    requires limit < NEVER
    ensures Quiet(out.channels, limit)
    decreases PendingWrites(chs), Distance(chs, limit)
  {
    var slot := NextSlot(chs, limit);
    if slot.None? then Step(chs, [])
    else
      var first := Service(chs, slot.value);
      ServiceDecreases(chs, limit, slot.value);
      var rest := AdvanceTo(first.channels, limit);
      Step(rest.channels, first.log + rest.log)
  }

  lemma NextIsUnique(chs: Bank, limit: nat, slot: nat)
    requires IsNext(chs, limit, slot)
    ensures NextSlot(chs, limit) == Some(slot)
  {
    var best := NextSlot(chs, limit);
    assert Due(chs, slot) <= limit;
    assert IsNext(chs, limit, best.value);
  }

  lemma AdvanceByOne(chs: Bank, limit: nat, slot: nat)
    requires limit < NEVER && IsNext(chs, limit, slot)
    ensures var first := Service(chs, slot);
      var rest := AdvanceTo(first.channels, limit);
      AdvanceTo(chs, limit) == Step(rest.channels, first.log + rest.log)
  {
    NextIsUnique(chs, limit, slot);
  }

  lemma AdvanceWhenQuiet(chs: Bank, limit: nat)
    requires limit < NEVER && Quiet(chs, limit)
    ensures AdvanceTo(chs, limit) == Step(chs, [])
  {
  }

  /**
   Servicing may be batched at will: stopping at t1 on the way to t2 gives the same channels and the
   same overflows in the same order as going there directly.
   */
  lemma {:induction false} AdvanceIsIndependentOfBatching(chs: Bank, t1: nat, t2: nat)
    requires t1 <= t2 < NEVER
    ensures var first := AdvanceTo(chs, t1);
      var second := AdvanceTo(first.channels, t2);
      AdvanceTo(chs, t2) == Step(second.channels, first.log + second.log)
    decreases PendingWrites(chs), Distance(chs, t1)
  {
    var slot := NextSlot(chs, t1);
    if slot.Some? {
      AdvanceByOne(chs, t1, slot.value);
      AdvanceByOne(chs, t2, slot.value);
      ServiceDecreases(chs, t1, slot.value);
      var first := Service(chs, slot.value);
      AdvanceIsIndependentOfBatching(first.channels, t1, t2);
      var middle := AdvanceTo(first.channels, t1);
      ConcatAssociates(first.log, middle.log, AdvanceTo(middle.channels, t2).log);
    } else {
      AdvanceWhenQuiet(chs, t1);
      assert [] + AdvanceTo(chs, t2).log == AdvanceTo(chs, t2).log;
    }
  }
}
