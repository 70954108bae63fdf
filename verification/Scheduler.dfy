/**
 The event scheduler (src/core/scheduler.cpp): the next event of each subsystem, and a cached minimum.
 */
module Scheduler {
  import opened Basics

  datatype Slot = Ppu | Timers | Dma | Apu | Serial | Irq

  const SLOTS: nat := 6

  function Index(slot: Slot): nat {
    match slot case Ppu => 0 case Timers => 1 case Dma => 2 case Apu => 3 case Serial => 4 case Irq => 5
  }

  /** The least of the first n events, or NEVER. */
  function Least(events: seq<nat>, n: nat): nat
    requires n <= |events|
  {
    if n == 0 then NEVER else Min(Least(events, n - 1), events[n - 1])
  }

  /** `least` is the minimum of the events, or NEVER when they are all later than that. */
  ghost predicate IsMinimum(events: seq<nat>, least: nat) {
    && least <= NEVER
    && (forall k | 0 <= k < |events| :: least <= events[k])
    && (least == NEVER || least in events)
  }

  lemma {:induction false} LeastIsMinimum(events: seq<nat>, n: nat)
    requires n <= |events|
    ensures IsMinimum(events[..n], Least(events, n))
  {
    if n > 0 {
      LeastIsMinimum(events, n - 1);
      assert events[..n] == events[..n - 1] + [events[n - 1]];
    } else {
      assert events[..0] == [];
    }
  }

  class EventScheduler {
    var currentCycle: nat
    var events: seq<nat>
    var nextEvent: nat

    /** The cached minimum is the minimum. */
    ghost predicate Valid()
      reads this`events, this`nextEvent
    {
      |events| == SLOTS && IsMinimum(events, nextEvent)
    }

    constructor (cycle: nat)
      ensures Valid() && currentCycle == cycle && events == seq(SLOTS, _ => NEVER) && nextEvent == NEVER
    {
      currentCycle, events, nextEvent := cycle, seq(SLOTS, _ => NEVER), NEVER;
    }

    method RecomputeNextEvent()
      modifies this`nextEvent
      ensures IsMinimum(events, nextEvent)
    {
      nextEvent := NEVER;
      for k := 0 to |events|
        invariant nextEvent == Least(events, k)
      {
        if events[k] < nextEvent {
          nextEvent := events[k];
        }
      }
      LeastIsMinimum(events, |events|);
      assert events[..|events|] == events;
    }

    /** The minimum is recomputed only when the slot that held it moves back. */
    method SetNextEvent(slot: Slot, cycle: nat)
      requires Valid()
      modifies this`events, this`nextEvent
      ensures Valid() && events == old(events)[Index(slot) := cycle]
    {
      var index := Index(slot);
      var oldCycle := events[index];
      events := events[index := cycle];
      if cycle < nextEvent {
        nextEvent := cycle;
        assert events[index] == cycle;
      } else if oldCycle == nextEvent && cycle != oldCycle {
        RecomputeNextEvent();
      } else {
        MinimumKept(old(events), index, cycle, nextEvent);
      }
    }
  }

  lemma MinimumKept(events: seq<nat>, index: nat, cycle: nat, least: nat)
    requires IsMinimum(events, least) && index < |events| && cycle >= least
    requires events[index] != least || cycle == least
    ensures IsMinimum(events[index := cycle], least)
  {
    if least != NEVER {
      var k :| 0 <= k < |events| && events[k] == least;
      assert events[index := cycle][k] == least;
    }
  }
}
