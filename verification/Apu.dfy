/**
 The parts of the sound unit that take part in scheduling (src/core/apu.cpp): its two event clocks, and
 the FIFOs, whose fill level after a timer overflow decides whether DMA is asked for more samples.
 */
module Apu {
  import opened Basics

  const SAMPLE_CYCLES: nat := 512
  const SEQUENCER_CYCLES: nat := 32768

  /** `enabled` is bit 7 of SOUNDCNT_X; `timerA` and `timerB` are the timers that clock the FIFOs. */
  datatype ApuState = ApuState(
    enabled: bool, timerA: nat, timerB: nat, levelA: nat, levelB: nat,
    requestA: bool, requestB: bool, nextSample: nat, nextSequencer: nat)

  function NextEvent(s: ApuState): nat {
    if s.enabled then Min(s.nextSample, s.nextSequencer) else NEVER
  }

  /** on_timer_overflow: the FIFOs on this timer lose a sample, and ask for more at 16 or below. */
  function TimerOverflow(s: ApuState, timer: nat): ApuState {
    if !s.enabled then s
    else
      var a := if timer == s.timerA then
          var level := Max(s.levelA - 1, 0); s.(levelA := level, requestA := s.requestA || level <= 16)
        else s;
      if timer == s.timerB then
        var level := Max(s.levelB - 1, 0); a.(levelB := level, requestB := s.requestB || level <= 16)
      else a
  }

  /** Where a clock that fires every `step` cycles stands once `now` has passed. */
  function PassClock(due: nat, step: nat, now: nat): (r: nat)
    requires step > 0
    ensures r > now && (due > now ==> r == due) && (due <= now ==> r <= now + step)
    decreases now + 1 - due
  {
    if due > now then due else PassClock(due + step, step, now)
  }

  function Advance(s: ApuState, now: nat): ApuState {
    if !s.enabled then s.(nextSample := now + SAMPLE_CYCLES, nextSequencer := now + SEQUENCER_CYCLES)
    else s.(nextSample := PassClock(s.nextSample, SAMPLE_CYCLES, now),
            nextSequencer := PassClock(s.nextSequencer, SEQUENCER_CYCLES, now))
  }

  class AudioUnit {
    var enabled: bool
    var timerA: nat
    var timerB: nat
    var levelA: nat
    var levelB: nat
    var requestA: bool
    var requestB: bool
    var nextSample: nat
    var nextSequencer: nat

    function State(): ApuState
      reads this
    {
      ApuState(enabled, timerA, timerB, levelA, levelB, requestA, requestB, nextSample, nextSequencer)
    }

    constructor ()
      ensures State() == ApuState(false, 0, 0, 0, 0, false, false, SAMPLE_CYCLES, SEQUENCER_CYCLES)
    {
      enabled, timerA, timerB, levelA, levelB := false, 0, 0, 0, 0;
      requestA, requestB, nextSample, nextSequencer := false, false, SAMPLE_CYCLES, SEQUENCER_CYCLES;
    }

    method OnTimerOverflow(timer: nat)
      modifies this
      ensures State() == TimerOverflow(old(State()), timer)
    {
      if !enabled {
        return;
      }
      if timer == timerA {
        if levelA > 0 {
          levelA := levelA - 1;
        }
        if levelA <= 16 {
          requestA := true;
        }
      }
      if timer == timerB {
        if levelB > 0 {
          levelB := levelB - 1;
        }
        if levelB <= 16 {
          requestB := true;
        }
      }
    }

    /** Both clocks are passed in event order, the sequencer first when they coincide. */
    method AdvanceTo(now: nat)
      modifies this
      ensures State() == Advance(old(State()), now)
    {
      if !enabled {
        nextSample := now + SAMPLE_CYCLES;
        nextSequencer := now + SEQUENCER_CYCLES;
        return;
      }
      while now >= Min(nextSample, nextSequencer)
        invariant PassClock(nextSample, SAMPLE_CYCLES, now) == PassClock(old(nextSample), SAMPLE_CYCLES, now)
        invariant PassClock(nextSequencer, SEQUENCER_CYCLES, now) == PassClock(old(nextSequencer), SEQUENCER_CYCLES, now)
        invariant State() == old(State()).(nextSample := nextSample, nextSequencer := nextSequencer)
        decreases Max(now + 1 - nextSample, 0) + Max(now + 1 - nextSequencer, 0)
      {
        var event := Min(nextSample, nextSequencer);
        if event == nextSequencer {
          nextSequencer := nextSequencer + SEQUENCER_CYCLES;
        }
        if event == nextSample {
          nextSample := nextSample + SAMPLE_CYCLES;
        }
      }
    }

    method TakeRequestA() returns (taken: bool)
      modifies this
      ensures taken == old(requestA) && State() == old(State()).(requestA := false)
    {
      taken := requestA;
      requestA := false;
    }

    method TakeRequestB() returns (taken: bool)
      modifies this
      ensures taken == old(requestB) && State() == old(State()).(requestB := false)
    {
      taken := requestB;
      requestB := false;
    }
  }
}
