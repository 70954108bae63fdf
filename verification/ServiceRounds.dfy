/**
 The rounds of the service loop (src/core/emulator.cpp, service_due_hardware) as a function of the hardware:
 its own timers, FIFOs and LCD decide which request lines fire.
 */
module ServiceRounds {
  import opened Basics
  import Apu
  import Lcd
  import Timers
  import TimerReference
  import TimerUnit
  import DmaEngine
  import DmaRounds

  /** What decides how the service loop goes on, at the cycle the loop has reached. */
  datatype Hardware = Hardware(
    timers: Timers.Bank, apu: Apu.ApuState, lcd: Lcd.LcdState, channels: seq<DmaEngine.Channel>, now: nat)

  type Outcomes = o: seq<DmaEngine.Outcome> | |o| == DmaEngine.CHANNELS
    witness seq(DmaEngine.CHANNELS, _ => DmaEngine.Outcome(0, 0, 0, 0))

  /** The hardware after reset. */
  function Reset(): Hardware {
    Hardware(seq(4, _ => Timers.ResetChannel()),
             Apu.ApuState(false, 0, 0, 0, 0, false, false, Apu.SAMPLE_CYCLES, Apu.SEQUENCER_CYCLES),
             Lcd.RESET, seq(DmaEngine.CHANNELS, _ => DmaEngine.IDLE), 0)
  }

  predicate Sized(h: Hardware) {
    |h.channels| == DmaEngine.CHANNELS && h.now < NEVER
  }

  function FifoLines(a: bool, b: bool): set<DmaEngine.Line> {
    (if a then {DmaEngine.FifoA} else {}) + (if b then {DmaEngine.FifoB} else {})
  }

  /** The lines of the blankings that began. */
  function BlankingLines(before: Lcd.LcdState, after: Lcd.LcdState): set<DmaEngine.Line> {
    (if !before.hblank && after.hblank && !after.vblank then {DmaEngine.HBlankLine} else {})
    + (if !before.vblank && after.vblank then {DmaEngine.VBlankLine} else {})
  }

  /** The sound unit once the timers' overflows up to this cycle have clocked its FIFOs. */
  function Clocked(h: Hardware): Apu.ApuState
    requires Sized(h)
  {
    TimerUnit.ClockAll(h.apu, Timers.AdvanceTo(h.timers, h.now).log)
  }

  /** The request lines that fire in the next round. */
  function LinesAt(h: Hardware): set<DmaEngine.Line>
    requires Sized(h)
  {
    FifoLines(Clocked(h).requestA, Clocked(h).requestB) + BlankingLines(h.lcd, Lcd.AdvanceClock(h.lcd, h.now))
  }

  function HappeningAt(h: Hardware, moved: Outcomes): DmaRounds.Happening
    requires Sized(h)
  {
    DmaRounds.Happening(LinesAt(h), moved)
  }

  /** Whether DMA has something to serve in the next round, so that there will be another. */
  ghost predicate RoundBusy(h: Hardware)
    requires Sized(h)
  {
    DmaRounds.Busy(h.channels, h.now, LinesAt(h))
  }

  /** The hardware after a round in which transfers come out as `moved`. */
  function AfterRound(h: Hardware, moved: Outcomes): (after: Hardware)
    requires Sized(h)
    ensures |after.channels| == DmaEngine.CHANNELS
  {
    Hardware(
      Timers.AdvanceTo(h.timers, h.now).channels,
      Apu.Advance(Clocked(h).(requestA := false, requestB := false), h.now),
      Lcd.AdvanceClock(h.lcd, h.now).(scanline := None),
      DmaRounds.RoundOf(h.channels, h.now, HappeningAt(h, moved)),
      DmaRounds.TimeAfter(h.channels, h.now, HappeningAt(h, moved)))
  }

  /** Every one of these rounds is busy, so that the loop goes on past all of them. */
  ghost predicate KeepsBusy(h: Hardware, rounds: seq<Outcomes>)
    decreases |rounds|
  {
    rounds == [] || (Sized(h) && RoundBusy(h) && KeepsBusy(AfterRound(h, rounds[0]), rounds[1..]))
  }

  /** The rounds up to and with the first idle one, which ends the loop; or all, when there is none. */
  ghost function Settled(h: Hardware, rounds: seq<Outcomes>): Hardware
    decreases |rounds|
  {
    if rounds == [] || !Sized(h) then h
    else if RoundBusy(h) then Settled(AfterRound(h, rounds[0]), rounds[1..])
    else AfterRound(h, rounds[0])
  }

  /** The loop, one round at a time. */
  lemma RoundByRound(h: Hardware, rounds: seq<Outcomes>)
    requires rounds != [] ==> Sized(h)
    ensures rounds == [] ==> KeepsBusy(h, rounds) && Settled(h, rounds) == h
    ensures rounds != [] && RoundBusy(h) ==>
      && (KeepsBusy(h, rounds) <==> KeepsBusy(AfterRound(h, rounds[0]), rounds[1..]))
      && Settled(h, rounds) == Settled(AfterRound(h, rounds[0]), rounds[1..])
    ensures rounds != [] && !RoundBusy(h) ==> !KeepsBusy(h, rounds) && Settled(h, rounds) == AfterRound(h, rounds[0])
  {
    hide AfterRound, RoundBusy;
  }

  /** A round in which nothing is served takes no time. */
  lemma IdleTakesNoTime(h: Hardware, moved: Outcomes)
    requires Sized(h)
    ensures AfterRound(h, moved).now >= h.now && (AfterRound(h, moved).now == h.now <==> !RoundBusy(h))
  {
    hide Clocked, LinesAt, Timers.AdvanceTo, Lcd.AdvanceClock, Apu.Advance, DmaRounds.RoundOf, DmaEngine.DueAt, DmaEngine.Marked;
    var marked := DmaRounds.MarkAll(h.channels, h.now, LinesAt(h));
    DmaEngine.BusyIffDue(marked, h.now, moved, DmaEngine.CHANNELS);
    forall i | 0 <= i < DmaEngine.CHANNELS
      ensures DmaEngine.DueAt(marked[i], h.now) <==> DmaEngine.DueAt(DmaEngine.Marked(h.channels[i], i, LinesAt(h), h.now), h.now)
    {
    }
  }
}
