/** The timers as an object (src/core/timers.cpp), proved against the event machine of module Timers. */
module TimerUnit {
  import opened Basics
  import opened Timers
  import opened TimerReference
  import opened TimerWrites
  import Irq
  import Apu

  /** Timer interrupts take four cycles to reach the CPU. */
  const TIMER_IRQ_DELAY: nat := 4

  /** What a list of overflows does to the interrupt controller. */
  function RaiseAll(s: Irq.IrqState, log: seq<Overflowed>): Irq.IrqState {
    if log == [] then s
    else
      var before := RaiseAll(s, log[..|log| - 1]);
      var e := log[|log| - 1];
      if e.irq then Irq.RaiseDelayed(before, Irq.TimerMask(e.timer), e.cycle, TIMER_IRQ_DELAY) else before
  }

  /** What a list of overflows does to the sound unit. */
  function ClockAll(s: Apu.ApuState, log: seq<Overflowed>): Apu.ApuState {
    if log == [] then s else Apu.TimerOverflow(ClockAll(s, log[..|log| - 1]), log[|log| - 1].timer)
  }

  /** How often a timer overflows in a list. */
  function Clocks(log: seq<Overflowed>, timer: nat): nat {
    if log == [] then 0 else Clocks(log[..|log| - 1], timer) + if log[|log| - 1].timer == timer then 1 else 0
  }

  /** A FIFO that has been clocked `count` times. */
  function Drained(level: nat, count: nat): nat { Max(level - count, 0) }

  /**
   Each FIFO gives one sample to every overflow of its timer while it has any, and asks for more exactly
   when it was clocked at all and stands at 16 samples or fewer; a disabled unit ignores its timers.
   */
  lemma {:induction false} FifosDrainByCount(s: Apu.ApuState, log: seq<Overflowed>)
    ensures !s.enabled ==> ClockAll(s, log) == s
    ensures s.enabled ==>
      var a, b := Clocks(log, s.timerA), Clocks(log, s.timerB);
      ClockAll(s, log) == s.(
        levelA := Drained(s.levelA, a), requestA := s.requestA || (a > 0 && Drained(s.levelA, a) <= 16),
        levelB := Drained(s.levelB, b), requestB := s.requestB || (b > 0 && Drained(s.levelB, b) <= 16))
  {
    if log != [] {
      FifosDrainByCount(s, log[..|log| - 1]);
    }
  }

  lemma {:induction false} RaiseAllConcat(s: Irq.IrqState, a: seq<Overflowed>, b: seq<Overflowed>)
    ensures RaiseAll(s, a + b) == RaiseAll(RaiseAll(s, a), b)
  {
    if b == [] {
      assert a + b == a;
    } else {
      assert (a + b)[..|a + b| - 1] == a + b[..|b| - 1];
      RaiseAllConcat(s, a, b[..|b| - 1]);
    }
  }

  lemma {:induction false} ClockAllConcat(s: Apu.ApuState, a: seq<Overflowed>, b: seq<Overflowed>)
    ensures ClockAll(s, a + b) == ClockAll(ClockAll(s, a), b)
  {
    if b == [] {
      assert a + b == a;
    } else {
      assert (a + b)[..|a + b| - 1] == a + b[..|b| - 1];
      ClockAllConcat(s, a, b[..|b| - 1]);
    }
  }

  lemma NoOverflow(i: Irq.IrqState, a: Apu.ApuState)
    ensures RaiseAll(i, []) == i && ClockAll(a, []) == a
  {
  }

  lemma OneOverflow(i: Irq.IrqState, a: Apu.ApuState, e: Overflowed)
    ensures RaiseAll(i, [e]) == if e.irq then Irq.RaiseDelayed(i, Irq.TimerMask(e.timer), e.cycle, TIMER_IRQ_DELAY) else i
    ensures ClockAll(a, [e]) == Apu.TimerOverflow(a, e.timer)
  {
    assert [e][..0] == [];
  }

  class TimerUnit {
    var channels: Bank

    constructor ()
      ensures channels == seq(4, _ => ResetChannel()) && Valid(channels, 0)
    {
      channels := seq(4, _ => ResetChannel());
    }

    /** read_counter: between services, the counter of the per-cycle machine. */
    method ReadCounter(i: nat, now: nat) returns (value: u16)
      requires i < 4
      ensures value == (channels[i].counter + channels[i].Ticks(now)) % 0x10000
      ensures Valid(channels, now) ==> value == ViewAll(channels, now)[i].counter
    {
      if Valid(channels, now) {
        VisibleCounterNeverWraps(channels, now, i);
      }
      value := (channels[i].counter + channels[i].Ticks(now)) % 0x10000;
    }

    /** A write to TMxCNT_L is held back one cycle; until then no counter and no event changes. */
    method WriteReload(i: nat, value: u16, now: nat)
      requires i < 4
      modifies this
      ensures channels == old(channels)[i := ReloadWritten(old(channels)[i], value, now)]
      ensures Valid(old(channels), now) && now <= HORIZON ==>
        Valid(channels, now) && ViewAll(channels, now) == ReloadPending(ViewAll(old(channels), now), i, value, now)
    {
      if Valid(channels, now) && now <= HORIZON {
        ReloadWriteShown(channels, now, i, value);
      }
      hide Valid, ViewAll;
      var ch := channels[i];
      channels := channels[i := ch.(pendingReload := value, reloadPending := true, reloadAt := now + 1)];
    }

    /** A write to TMxCNT_H is held back one cycle, or two when it stops a running timer. */
    method WriteControl(i: nat, value: u16, now: nat)
      requires i < 4
      modifies this
      ensures channels == old(channels)[i := ControlWritten(old(channels)[i], DecodeControl(i, value), now)]
      ensures Valid(old(channels), now) && now <= HORIZON ==>
        Valid(channels, now) && ViewAll(channels, now) == ControlPending(ViewAll(old(channels), now), i, DecodeControl(i, value), now)
    {
      if Valid(channels, now) && now <= HORIZON {
        ControlWriteShown(channels, now, i, DecodeControl(i, value));
      }
      hide Valid, ViewAll, DecodeControl;
      var ch := channels[i];
      var control := DecodeControl(i, value);
      var stops := !control.enable && ch.control.enable && ch.running;
      channels := channels[i := ch.(pendingControl := control, controlPending := true, controlAt := now + (if stops then 2 else 1))];
    }

    /** next_pending_event: the earliest event up to `limit`, in service order within its cycle. */
    method NextPendingEvent(limit: nat) returns (slot: Option<nat>)
      requires limit < NEVER
      ensures slot == NextSlot(channels, limit)
    {
      var found, best: nat, priority, index := false, NEVER, 0, 0;
      for i := 0 to 4
        invariant priority < 3 && index < 4
        invariant Scanned(channels, limit, found, priority, index, best, i, 0)
      {
        for p := 0 to 3
          invariant priority < 3 && index < 4
          invariant Scanned(channels, limit, found, priority, index, best, i, p)
        {
          var cycle := DueOf(channels, p, i);
          if cycle <= limit && (cycle < best || (cycle == best && p < priority)) {
            found, best, priority, index := true, cycle, p, i;
          }
        }
      }
      slot := if found then Some(4 * priority + index) else None;
      forall k | 0 <= k < SLOTS
        ensures !found ==> Due(channels, k) > limit
        ensures found ==> best < Due(channels, k) || (best == Due(channels, k) && 4 * priority + index <= k)
      {
        assert Due(channels, k) == DueOf(channels, k / 4, k % 4);
      }
      if found {
        assert IsNext(channels, limit, 4 * priority + index);
        NextIsUnique(channels, limit, 4 * priority + index);
      }
    }

    /** overflow(): report to the interrupt controller and the sound unit, clock the next timer, restart. */
    method OverflowTimer(i: nat, now: nat, irq: Irq.IrqController, apu: Apu.AudioUnit)
      requires i < 4
      modifies this, irq, apu
      ensures channels == Overflow(old(channels), i, now).channels
      ensures irq.State() == RaiseAll(old(irq.State()), Overflow(old(channels), i, now).log)
      ensures apu.State() == ClockAll(old(apu.State()), Overflow(old(channels), i, now).log)
      decreases 4 - i, 0
    {
      ghost var e := Overflowed(i, now, channels[i].control.irq);
      ghost var reloaded: Bank := channels[i := channels[i].(counter := channels[i].reload, started := now)];
      ghost var above := TickAbove(reloaded, i, now);
      assert Overflow(channels, i, now) == Step(above.channels[i :=
        if above.channels[i].Counting() then above.channels[i].Start(now, 0) else above.channels[i].(nextEvent := NEVER)],
        [e] + above.log);
      assert above == if i + 1 < 4 then TickCascade(reloaded, i + 1, now) else Step(reloaded, []);
      OneOverflow(irq.State(), apu.State(), e);
      RaiseAllConcat(irq.State(), [e], above.log);
      ClockAllConcat(apu.State(), [e], above.log);
      NoOverflow(RaiseAll(irq.State(), [e]), ClockAll(apu.State(), [e]));
      hide Overflow, TickAbove, TickCascade, RaiseAll, ClockAll, Irq.RaiseDelayed, Apu.TimerOverflow;
      channels := channels[i := channels[i].(counter := channels[i].reload, started := now)];
      if channels[i].control.irq {
        irq.Raise(Irq.TimerMask(i), now, TIMER_IRQ_DELAY);
      }
      apu.OnTimerOverflow(i);
      if i + 1 < 4 {
        TickCascadeTimer(i + 1, now, irq, apu);
      }
      var ch := channels[i];
      if ch.running && !ch.control.countUp {
        channels := channels[i := ch.Start(now, 0)];
      } else {
        channels := channels[i := ch.(nextEvent := NEVER)];
      }
    }

    /** tick_cascade(): a count-up timer advances when the one below it overflows. */
    method TickCascadeTimer(i: nat, now: nat, irq: Irq.IrqController, apu: Apu.AudioUnit)
      requires i < 4
      modifies this, irq, apu
      ensures channels == TickCascade(old(channels), i, now).channels
      ensures irq.State() == RaiseAll(old(irq.State()), TickCascade(old(channels), i, now).log)
      ensures apu.State() == ClockAll(old(apu.State()), TickCascade(old(channels), i, now).log)
      decreases 4 - i, 1
    {
      var ch := channels[i];
      if !ch.control.enable || !ch.control.countUp {
        return;
      }
      channels := channels[i := ch.(counter := (ch.counter + 1) % 0x10000)];
      if channels[i].counter == 0 {
        OverflowTimer(i, now, irq, apu);
      }
    }

    /** The channel takes its new control value and restarts in phase with the prescaler. */
    method Reconfigure(i: nat, now: nat)
      requires i < 4
      modifies this
      ensures channels == old(channels)[i := old(channels)[i].ApplyControl(now)]
    {
      var ch := channels[i];
      var previous := ch.control.enable;
      ch := ch.(control := ch.pendingControl, period := Period(ch.pendingControl.prescaler));
      if !ch.control.enable {
        ch := ch.(nextEvent := NEVER);
      } else if ch.control.countUp {
        if !previous {
          ch := ch.(counter := ch.reload);
        }
        ch := ch.(running := false, started := now, nextEvent := NEVER);
      } else {
        var offset := now % ch.period;
        if previous {
          ch := ch.Start(now, offset);
        } else if ch.counter == 0xFFFF && offset == 0 {
          ch := ch.Start(now, 0);
        } else {
          ch := ch.(counter := ch.reload);
          ch := ch.Start(now, offset - 1);
        }
      }
      channels := channels[i := ch];
    }

    /** A control write takes effect: stop the running channel, then reconfigure it. */
    method ApplyControlWrite(i: nat, now: nat, irq: Irq.IrqController, apu: Apu.AudioUnit)
      requires i < 4 && channels[i].controlPending && channels[i].controlAt == now < NEVER
      modifies this, irq, apu
      ensures channels == Service(old(channels), 8 + i).channels
      ensures irq.State() == RaiseAll(old(irq.State()), Service(old(channels), 8 + i).log)
      ensures apu.State() == ClockAll(old(apu.State()), Service(old(channels), 8 + i).log)
    {
      assert Due(channels, 8 + i) == now;
      NoOverflow(irq.State(), apu.State());
      hide Overflow, RaiseAll, ClockAll;
      channels := channels[i := channels[i].(controlPending := false, controlAt := NEVER)];
      if channels[i].running {
        var overrun := channels[i].StopOverflows(now);
        channels := channels[i := channels[i].Stop(now)];
        if overrun {
          OverflowTimer(i, now, irq, apu);
        }
      }
      Reconfigure(i, now);
    }

    /** advance_to(): service events in order until none is due. */
    method Advance(limit: nat, irq: Irq.IrqController, apu: Apu.AudioUnit)
      requires limit < NEVER
      modifies this, irq, apu
      ensures channels == AdvanceTo(old(channels), limit).channels
      ensures irq.State() == RaiseAll(old(irq.State()), AdvanceTo(old(channels), limit).log)
      ensures apu.State() == ClockAll(old(apu.State()), AdvanceTo(old(channels), limit).log)
    {
      hide AdvanceTo, BestOf, Service, Due;
      ghost var done := [];
      var slot := NextPendingEvent(limit);
      while slot.Some?
        invariant slot == NextSlot(channels, limit)
        invariant AdvanceTo(old(channels), limit).channels == AdvanceTo(channels, limit).channels
        invariant AdvanceTo(old(channels), limit).log == done + AdvanceTo(channels, limit).log
        invariant irq.State() == RaiseAll(old(irq.State()), done)
        invariant apu.State() == ClockAll(old(apu.State()), done)
        decreases PendingWrites(channels), Distance(channels, limit)
      {
        var k := slot.value;
        AdvanceByOne(channels, limit, k);
        ServiceDecreases(channels, limit, k);
        ghost var log := Service(channels, k).log;
        RaiseAllConcat(old(irq.State()), done, log);
        ClockAllConcat(old(apu.State()), done, log);
        ConcatAssociates(done, log, AdvanceTo(Service(channels, k).channels, limit).log);
        ServiceSlot(k, irq, apu);
        done := done + log;
        slot := NextPendingEvent(limit);
      }
      AdvanceWhenQuiet(channels, limit);
      assert done + [] == done;
    }

    method ServiceSlot(k: nat, irq: Irq.IrqController, apu: Apu.AudioUnit)
      requires k < SLOTS && Due(channels, k) < NEVER
      modifies this, irq, apu
      ensures channels == Service(old(channels), k).channels
      ensures irq.State() == RaiseAll(old(irq.State()), Service(old(channels), k).log)
      ensures apu.State() == ClockAll(old(apu.State()), Service(old(channels), k).log)
    {
      var i, cycle := k % 4, Due(channels, k);
      if k < 4 {
        OverflowTimer(i, cycle, irq, apu);
      } else if k < 8 {
        channels := channels[i := channels[i].ApplyReload()];
      } else {
        ApplyControlWrite(i, cycle, irq, apu);
      }
    }

    /** next_event_cycle(): the earliest cycle stored in any channel. */
    method NextEventCycle() returns (earliest: nat)
      ensures earliest == NextEvent(channels)
    {
      earliest := NEVER;
      for i := 0 to 4
        invariant earliest == EarliestOf(channels, i)
      {
        earliest := Min(earliest, channels[i].nextEvent);
        earliest := Min(earliest, channels[i].reloadAt);
        earliest := Min(earliest, channels[i].controlAt);
      }
    }
  }

  /** The event of kind q (overflow, reload, control) of channel j. */
  function DueOf(chs: Bank, q: nat, j: nat): nat
    requires q < 3 && j < 4
  {
    Due(chs, 4 * q + j)
  }

  /** After channels below `i`, and the first `p` kinds of event of channel `i`, the best seen so far. */
  ghost predicate Scanned(chs: Bank, limit: nat, found: bool, priority: nat, index: nat, best: nat, i: nat, p: nat)
    requires priority < 3 && index < 4
  {
    && (found ==> index <= i && best == DueOf(chs, priority, index) <= limit)
    && (!found ==> best == NEVER)
    && forall q, j | 0 <= q < 3 && 0 <= j < 4 && (j < i || (j == i && q < p)) ::
         if found then best < DueOf(chs, q, j) || (best == DueOf(chs, q, j) && (priority < q || (priority == q && index <= j)))
         else DueOf(chs, q, j) > limit
  }
}
