/**
 A program that sets up two timers and two FIFO channels as any sound driver does, but lets the channels fill
 work RAM instead of the FIFOs: the service of the hardware then never ends.
 */
module EndlessService {
  import opened Basics
  import opened ServiceRounds
  import opened Emulator
  import Apu
  import Lcd
  import RamBus
  import DmaCopy
  import Timers
  import TimerReference
  import TimerWrites
  import TimerUnit
  import DmaEngine
  import DmaRounds

  const IWRAM: u32 := 0x300_0000
  const EWRAM: u32 := 0x200_0000

  /** Sixty ticks from reload to overflow. */
  const HUM_RELOAD: nat := 0xFFC4

  /** A free-running timer of sixty cycles, next to overflow at `next`. */
  predicate Ticking(ch: Timers.Channel, next: int) {
    && ch.Counting() && ch.period == 1 && ch.reload == HUM_RELOAD && ch.nextEvent == next
    && !ch.reloadPending && !ch.controlPending
  }

  predicate Resting(ch: Timers.Channel) {
    !ch.running && !ch.control.countUp && !ch.reloadPending && !ch.controlPending
  }

  /** Timers 0 and 1 overflow in turn, thirty cycles apart; timer t did so d cycles ago. */
  predicate TimersHum(chs: Timers.Bank, now: nat, t: nat, d: nat) {
    && t < 2 && d < 30
    && Ticking(chs[t], now - d) && Ticking(chs[1 - t], now - d + 30)
    && Resting(chs[2]) && Resting(chs[3])
  }

  /** The sound unit is on, and each of its empty FIFOs is clocked by one of the two timers. */
  predicate FifosHum(s: Apu.ApuState) {
    s.enabled && s.timerA == 0 && s.timerB == 1 && s.levelA == 0 == s.levelB && !s.requestA && !s.requestB
  }

  /** A FIFO channel that keeps reading one word of IWRAM, towards EWRAM. */
  predicate FillsEwram(ch: DmaEngine.Channel) {
    ch.curSource == IWRAM && ch.curDestination == EWRAM && ch.control.srcMode == 2
  }

  /** Enabled and repeating in special timing, with those addresses. */
  predicate OnFifo(ch: DmaEngine.Channel) {
    ch.control.enabled && ch.control.repeat && ch.control.timing == DmaEngine.Special && FillsEwram(ch)
  }

  /** Channels 1 and 2 serve the FIFO lines for ever; the one whose timer overflows next is waiting. */
  predicate ChannelsHum(chs: seq<DmaEngine.Channel>, now: nat, t: nat) {
    && |chs| == DmaEngine.CHANNELS && t < 2 && OnFifo(chs[1]) && OnFifo(chs[2])
    && DmaEngine.DueAt(chs[2 - t], now) && !chs[1 + t].pending
    && !chs[0].control.enabled && !chs[3].control.enabled
  }

  /** Both FIFO channels are enabled and nothing is waiting. */
  predicate ChannelsReady(chs: seq<DmaEngine.Channel>) {
    && |chs| == DmaEngine.CHANNELS && OnFifo(chs[1]) && OnFifo(chs[2]) && !chs[1].pending && !chs[2].pending
    && !chs[0].control.enabled && !chs[3].control.enabled
  }

  /**
   Timer t has overflowed since the last round, so its FIFO asks for samples; meanwhile the other FIFO's
   channel is due and will keep the bus until the other timer has overflowed.
   */
  predicate Humming(h: Hardware, t: nat, d: nat) {
    t < 2 && TimersHum(h.timers, h.now, t, d) && FifosHum(h.apu) && ChannelsHum(h.channels, h.now, t)
  }

  /** What comes of the transfers of the two FIFO channels: see FourWordsCost. */
  predicate FourWords(moved: Outcomes) {
    moved[1] == FourWordsMoved(moved[1].latch) && moved[2] == FourWordsMoved(moved[2].latch)
  }

  const ON_FIFO := DmaEngine.Control(true, false, DmaEngine.Special, true, true, 2, 2)

  function FourWordsMoved(latch: u32): DmaEngine.Outcome { DmaEngine.Outcome(IWRAM, EWRAM, latch, 28) }

  /** Its transfer of four words costs 28 cycles, and leaves the addresses where they were. */
  lemma FourWordsCost(ch: DmaEngine.Channel, i: nat, contended: bool)
    requires DmaEngine.FifoMode(ch, i) && FillsEwram(ch)
    ensures var job := DmaEngine.JobOf(ch, i);
      && job.units == 4 && DmaCopy.InRam(job, 4) && DmaCopy.BusCycles(job, contended, 4) == 28
      && DmaCopy.SourceAt(job, 4) == IWRAM && DmaCopy.DestinationAt(job, 4) == EWRAM
  {
    var job := DmaEngine.JobOf(ch, i);
    assert job.source == IWRAM && job.destination == EWRAM && job.width == RamBus.Word;
    StaysPut(job, 1);
    StaysPut(job, 2);
    StaysPut(job, 3);
    StaysPut(job, 4);
    assert DmaCopy.BusCycles(job, contended, 1) == 7;
    assert DmaCopy.BusCycles(job, contended, 2) == 14;
    assert DmaCopy.BusCycles(job, contended, 3) == 21;
  }

  lemma {:induction false} StaysPut(job: DmaCopy.Job, n: nat)
    requires job.fifo && job.srcMode == 2
    ensures DmaCopy.SourceAt(job, n) == job.source && DmaCopy.DestinationAt(job, n) == job.destination
    ensures forall k | 0 <= k < n :: DmaCopy.SourceAt(job, k) == job.source && DmaCopy.DestinationAt(job, k) == job.destination
  {
    if n > 0 {
      StaysPut(job, n - 1);
    }
  }

  /** Only timer t is due. */
  lemma OneIsDue(chs: Timers.Bank, now: nat, t: nat, d: nat)
    requires TimersHum(chs, now, t, d) && d <= now < NEVER - 60
    ensures Timers.IsNext(chs, now, t) && Timers.Due(chs, t) == now - d
    ensures forall k :: 0 <= k < Timers.SLOTS && k != t ==> Timers.Due(chs, k) > now
  {
    forall k | 0 <= k < Timers.SLOTS && k != t
      ensures Timers.Due(chs, k) > now
    {
      assert k % 4 == t || k % 4 == 1 - t || k % 4 == 2 || k % 4 == 3;
    }
  }

  lemma NoCascade(chs: Timers.Bank, i: nat, now: nat)
    requires i < 4 && (i + 1 < 4 ==> !Timers.Cascades(chs[i + 1]))
    ensures Timers.Overflow(chs, i, now).log == [Timers.Overflowed(i, now, chs[i].control.irq)]
  {
    var reloaded := chs[i := chs[i].(counter := chs[i].reload, started := now)];
    if i + 1 < 4 {
      assert Timers.TickCascade(reloaded, i + 1, now).log == [];
    }
    assert Timers.TickAbove(reloaded, i, now).log == [];
  }

  lemma OthersAsTheyWere(chs: Timers.Bank, t: nat, now: nat)
    requires t < 4 && forall j | 0 <= j < 4 :: !Timers.Cascades(chs[j])
    ensures forall j | 0 <= j < 4 && j != t :: Timers.Overflow(chs, t, now).channels[j] == chs[j]
  {
    Timers.OverflowFrame(chs, t, now);
    hide Timers.Overflow;
    var out := Timers.Overflow(chs, t, now).channels;
    forall j | 0 <= j < 4 && j != t
      ensures out[j] == chs[j]
    {
      assert out[t := chs[t]][j] == out[j];
    }
  }

  /** The overflow of timer t, and its next one sixty cycles later. */
  lemma OneOverflows(chs: Timers.Bank, now: nat, t: nat, d: nat)
    requires TimersHum(chs, now, t, d) && d <= now
    ensures var next := Timers.Overflow(chs, t, now - d);
      && TimersHum(next.channels, now + 30, 1 - t, d)
      && next.log == [Timers.Overflowed(t, now - d, chs[t].control.irq)]
  {
    NoCascade(chs, t, now - d);
    OthersAsTheyWere(chs, t, now - d);
    Timers.OverflowFrame(chs, t, now - d);
    hide Timers.Overflow, Timers.CascadeFrame;
  }

  lemma TimersGoOn(chs: Timers.Bank, now: nat, t: nat, d: nat)
    requires TimersHum(chs, now, t, d) && d <= now < NEVER - 60
    ensures var out := Timers.AdvanceTo(chs, now);
      && TimersHum(out.channels, now + 30, 1 - t, d)
      && out.log == [Timers.Overflowed(t, now - d, chs[t].control.irq)]
  {
    var next := Timers.Overflow(chs, t, now - d);
    OneIsDue(chs, now, t, d);
    OneOverflows(chs, now, t, d);
    QuietAfter(next.channels, now, 1 - t, d);
    assert Timers.Service(chs, t) == next by { hide Timers.Overflow; }
    hide Timers.AdvanceTo, Timers.Overflow, Timers.Service, TimersHum, Timers.Due, Timers.IsNext, Timers.Quiet;
    Timers.AdvanceByOne(chs, now, t);
    Timers.AdvanceWhenQuiet(next.channels, now);
  }

  lemma QuietAfter(chs: Timers.Bank, now: nat, t: nat, d: nat)
    requires TimersHum(chs, now + 30, t, d) && now < NEVER - 60
    ensures Timers.Quiet(chs, now)
  {
    forall k | 0 <= k < Timers.SLOTS
      ensures Timers.Due(chs, k) > now
    {
      assert k % 4 == t || k % 4 == 1 - t || k % 4 == 2 || k % 4 == 3;
    }
  }

  /** The overflow empties nothing, and asks for samples on its own line. */
  lemma OneAsks(s: Apu.ApuState, t: nat, cycle: nat, irq: bool)
    requires FifosHum(s) && t < 2
    ensures var asked := TimerUnit.ClockAll(s, [Timers.Overflowed(t, cycle, irq)]);
      && asked.requestA == (t == 0) && asked.requestB == (t == 1)
      && FifosHum(asked.(requestA := false, requestB := false))
  {
    var log := [Timers.Overflowed(t, cycle, irq)];
    assert log[..0] == [];
    assert TimerUnit.ClockAll(s, log[..0]) == s;
  }

  lemma SoundGoesOn(s: Apu.ApuState, now: nat)
    requires FifosHum(s)
    ensures FifosHum(Apu.Advance(s, now))
  {
  }

  /** The blanking lines reach neither FIFO channel. */
  lemma LinesOfHum(h: Hardware, t: nat, d: nat)
    requires Sized(h) && t < 2 && TimersHum(h.timers, h.now, t, d) && FifosHum(h.apu) && d <= h.now < NEVER - 60
    ensures DmaEngine.FifoA in LinesAt(h) <==> t == 0
    ensures DmaEngine.FifoB in LinesAt(h) <==> t == 1
    ensures FifosHum(Apu.Advance(Clocked(h).(requestA := false, requestB := false), h.now))
  {
    hide Timers.AdvanceTo, Lcd.AdvanceClock, TimersHum, FifosHum, Apu.Advance, TimerUnit.ClockAll;
    TimersGoOn(h.timers, h.now, t, d);
    OneAsks(h.apu, t, h.now - d, h.timers[t].control.irq);
    SoundGoesOn(Clocked(h).(requestA := false, requestB := false), h.now);
  }

  /** The waiting channel takes the bus for thirty cycles, and the other one is to start meanwhile. */
  lemma ChannelsGoOn(chs: seq<DmaEngine.Channel>, now: nat, t: nat, lines: set<DmaEngine.Line>, moved: Outcomes)
    requires ChannelsHum(chs, now, t) && FourWords(moved)
    requires (DmaEngine.FifoA in lines <==> t == 0) && (DmaEngine.FifoB in lines <==> t == 1)
    ensures var h := DmaRounds.Happening(lines, moved);
      && DmaRounds.Busy(chs, now, lines)
      && DmaRounds.TimeAfter(chs, now, h) == now + 30
      && ChannelsHum(DmaRounds.RoundOf(chs, now, h), now + 30, 1 - t)
  {
    var h := DmaRounds.Happening(lines, moved);
    var marked := DmaRounds.MarkAll(chs, now, lines);
    assert !DmaEngine.DueAt(marked[0], now) && !DmaEngine.DueAt(marked[3], now);
    assert DmaEngine.DueAt(marked[2 - t], now) && !DmaEngine.DueAt(marked[1 + t], now);
    assert DmaEngine.BusyCycles(marked, now, moved, 0) == 0;
    assert DmaEngine.BusyCycles(marked, now, moved, 1) == 0;
    assert DmaEngine.BusyCycles(marked, now, moved, 2) == if t == 0 then 0 else 29;
    assert DmaEngine.BusyCycles(marked, now, moved, 3) == 29;
    assert DmaEngine.BusyCycles(marked, now, moved, 4) == 29;
  }

  /** One round of the hum, thirty cycles, and it is the other timer's turn. */
  lemma RoundGoesOn(h: Hardware, t: nat, d: nat, moved: Outcomes)
    requires Sized(h) && Humming(h, t, d) && FourWords(moved) && d <= h.now < NEVER - 60
    ensures RoundBusy(h)
    ensures var after := AfterRound(h, moved); after.now == h.now + 30 && Humming(after, 1 - t, d)
  {
    hide Timers.AdvanceTo, Lcd.AdvanceClock, TimersHum, FifosHum, ChannelsHum, Apu.Advance, Clocked, LinesAt, FourWords,
         DmaRounds.RoundOf, DmaRounds.TimeAfter, DmaRounds.Busy;
    LinesOfHum(h, t, d);
    TimersGoOn(h.timers, h.now, t, d);
    ChannelsGoOn(h.channels, h.now, t, LinesAt(h), moved);
  }

  /** So the loop goes on, round after round. */
  lemma {:induction false} TwoFifosKeepBusy(h: Hardware, t: nat, d: nat, rounds: seq<Outcomes>)
    requires Sized(h) && t < 2 && Humming(h, t, d) && (forall o | o in rounds :: FourWords(o))
    requires d <= h.now && h.now + 30 * |rounds| < NEVER - 60
    ensures KeepsBusy(h, rounds)
    decreases |rounds|
  {
    hide Humming, RoundBusy, AfterRound, FourWords;
    if rounds != [] {
      assert rounds[0] in rounds;
      RoundGoesOn(h, t, d, rounds[0]);
      TwoFifosKeepBusy(AfterRound(h, rounds[0]), 1 - t, d, rounds[1..]);
    }
  }

  // ----- How it comes about -----

  /**
   How it begins: the first overflow, in a round that finds nothing to serve, marks a channel; one instruction
   of 31 cycles later that channel is due, and the other timer has overflowed.
   */
  lemma HumBegins(h: Hardware, moved: Outcomes)
    requires Sized(h) && TimersHum(h.timers, h.now, 0, 0) && FifosHum(h.apu) && h.now < NEVER - 60
    requires ChannelsReady(h.channels)
    ensures !RoundBusy(h)
    ensures var after := AfterRound(h, moved); after.now == h.now && Humming(after.(now := h.now + 31), 1, 1)
  {
    LinesOfHum(h, 0, 0);
    TimersGoOn(h.timers, h.now, 0, 0);
    ChannelsBegin(h.channels, h.now, LinesAt(h), moved);
    hide Timers.AdvanceTo, Lcd.AdvanceClock, FifosHum, ChannelsHum, Apu.Advance, Clocked, LinesAt, DmaRounds.RoundOf, DmaRounds.TimeAfter, DmaRounds.Busy;
  }

  lemma ChannelsBegin(chs: seq<DmaEngine.Channel>, now: nat, lines: set<DmaEngine.Line>, moved: Outcomes)
    requires ChannelsReady(chs)
    requires DmaEngine.FifoA in lines && DmaEngine.FifoB !in lines
    ensures var h := DmaRounds.Happening(lines, moved);
      && !DmaRounds.Busy(chs, now, lines)
      && DmaRounds.TimeAfter(chs, now, h) == now
      && ChannelsHum(DmaRounds.RoundOf(chs, now, h), now + 31, 1)
  {
    var marked := DmaRounds.MarkAll(chs, now, lines);
    DmaEngine.BusyIffDue(marked, now, moved, DmaEngine.CHANNELS);
  }

  /** The timers once timer i has been given a reload value and been switched on, one cycle per tick. */
  function SwitchedOn(chs: Timers.Bank, i: nat, now: nat): Timers.Bank
    requires i < 4
  {
    var reload := chs[i := TimerWrites.ReloadWritten(chs[i], HUM_RELOAD, now)];
    reload[i := TimerWrites.ControlWritten(reload[i], Timers.DecodeControl(i, 0x80), now)]
  }

  /** A timer that was switched on overflows 62 cycles later; the writes have no other effect. */
  lemma SwitchedOnTicks(chs: Timers.Bank, i: nat, now: nat, later: nat)
    requires i < 4 && chs[i] == Timers.ResetChannel() && now < later <= now + 61 < NEVER && Timers.Quiet(chs, later)
    ensures var out := Timers.AdvanceTo(SwitchedOn(chs, i, now), later);
      && out.log == [] && out.channels == chs[i := out.channels[i]] && Ticking(out.channels[i], now + 62)
  {
    var on := SwitchedOn(chs, i, now);
    var reloaded := Timers.Service(on, 4 + i).channels;
    var started := Timers.Service(reloaded, 8 + i).channels;
    OnlySlots(chs, on, i, later);
    OnlySlots(chs, reloaded, i, later);
    OnlySlots(chs, started, i, later);
    assert Timers.IsNext(on, later, 4 + i);
    assert Timers.IsNext(reloaded, later, 8 + i);
    assert Ticking(started[i], now + 62);
    assert Timers.Quiet(started, later);
    hide Timers.AdvanceTo, Timers.Service, Timers.IsNext, Timers.Quiet, Timers.Due, SwitchedOn;
    Timers.AdvanceByOne(on, later, 4 + i);
    Timers.AdvanceByOne(reloaded, later, 8 + i);
    Timers.AdvanceWhenQuiet(started, later);
  }

  /** Slots of the other timers are as quiet as they were. */
  lemma OnlySlots(chs: Timers.Bank, out: Timers.Bank, i: nat, later: nat)
    requires i < 4 && out == chs[i := out[i]] && Timers.Quiet(chs, later)
    ensures forall k :: 0 <= k < Timers.SLOTS && k != i && k != 4 + i && k != 8 + i ==> Timers.Due(out, k) > later
  {
    forall k | 0 <= k < Timers.SLOTS && k != i && k != 4 + i && k != 8 + i
      ensures Timers.Due(out, k) > later
    {
      assert k % 4 != i;
      assert Timers.Due(out, k) == Timers.Due(chs, k);
    }
  }

  /** SOUNDCNT and the channels' registers, written in cycle 0. */
  method SwitchOnSound(m: Machine)
    requires m.Valid() && m.scheduler.currentCycle == 0
    requires m.HardwareAt(0) == Reset()
    modifies m.apu, m.dma
    ensures m.Valid() && FifosHum(m.apu.State()) && ChannelsReady(m.dma.channels)
  {
    m.apu.enabled, m.apu.timerA, m.apu.timerB := true, 0, 1;
    m.dma.WriteAddress(1, false, IWRAM);
    m.dma.WriteAddress(1, true, EWRAM);
    m.dma.WriteControl(1, ON_FIFO, 0);
    m.dma.WriteAddress(2, false, IWRAM);
    m.dma.WriteAddress(2, true, EWRAM);
    m.dma.WriteControl(2, ON_FIFO, 0);
  }

  /** The first timer's date, and nothing else is set. */
  lemma FirstTicks(first: Timers.Bank)
    requires var on := SwitchedOn(Reset().timers, 0, 0); first == Timers.AdvanceTo(on, 30).channels
    ensures Ticking(first[0], 62) && first == Reset().timers[0 := first[0]] && Timers.Quiet(first, 61)
    ensures Timers.AdvanceTo(SwitchedOn(Reset().timers, 0, 0), 30).log == []
  {
    hide Timers.AdvanceTo, SwitchedOn, Timers.Quiet, Ticking, Timers.ResetChannel;
    AllQuietAtReset(30);
    SwitchedOnTicks(Reset().timers, 0, 0, 30);
    QuietBefore(first, 62);
  }

  lemma SecondTicks(first: Timers.Bank, second: Timers.Bank)
    requires Ticking(first[0], 62) && first == Reset().timers[0 := first[0]] && Timers.Quiet(first, 61)
    requires var on := SwitchedOn(first, 1, 30); second == Timers.AdvanceTo(on, 61).channels
    ensures TimersHum(second, 62, 0, 0) && Timers.AdvanceTo(SwitchedOn(first, 1, 30), 61).log == []
  {
    hide Timers.AdvanceTo, SwitchedOn, Timers.Quiet, Ticking;
    SwitchedOnTicks(first, 1, 30, 61);
  }

  lemma AllQuietAtReset(now: nat)
    requires now < NEVER
    ensures Timers.Quiet(Reset().timers, now)
  {
  }

  lemma QuietBefore(chs: Timers.Bank, next: nat)
    requires Ticking(chs[0], next) && next > 0 && chs == Reset().timers[0 := chs[0]] && next < NEVER
    ensures Timers.Quiet(chs, next - 1)
  {
    forall k | 0 <= k < Timers.SLOTS
      ensures Timers.Due(chs, k) > next - 1
    {
      assert k % 4 == 0 || chs[k % 4] == Timers.ResetChannel();
    }
  }

  /**
   A machine from reset, whose program switches on the sound, timer 0 in cycle 0 and timer 1 in cycle 30, reads
   a timer in cycle 61, and in cycle 62 starts an instruction of 31 cycles. The service after that instruction
   has not ended after any number of rounds.
   */
  method FromReset(first: Outcomes, rounds: seq<Outcomes>) returns (m: Machine, ended: bool)
    requires forall o | o in rounds :: FourWords(o)
    requires 93 + CostBound([first]) + CostBound(rounds) <= TimerReference.HORIZON
    ensures m.Valid() && !ended
  {
    hide FifosHum, TimersHum, ChannelsReady;
    m := new Machine();
    m.Start();
    SwitchOnSound(m);
    SwitchOnTimers(m);
    ended := Hum(m, first, rounds);
  }

  /** The timers are serviced and none overflows. */
  method QuietService(m: Machine, now: nat)
    requires m.TimersServed() && m.dma.Valid() && m.served <= now <= TimerReference.HORIZON
    requires Timers.AdvanceTo(m.timers.channels, now).log == [] && FifosHum(m.apu.State())
    modifies m`sioActive, m`sioEventCycle, m`served, m.irq, m.timers, m.apu, m.dma
    ensures m.TimersServed() && m.dma.Valid() && m.served == now
    ensures m.timers.channels == Timers.AdvanceTo(old(m.timers.channels), now).channels
    ensures m.apu.State() == old(m.apu.State()) && m.dma.channels == old(m.dma.channels)
  {
    hide Timers.AdvanceTo, TimerReference.Valid, TimerUnit.ClockAll, DmaEngine.AllValid, DmaEngine.NotLate;
    TimerUnit.NoOverflow(m.irq.State(), m.apu.State());
    ghost var before := m.dma.channels;
    ghost var lines := m.ServiceTimers(now);
    assert lines == {};
    DmaEngine.NoneMarked(before, now);
    assert m.dma.channels == before;
  }

  method SwitchOnTimers(m: Machine)
    requires m.Valid() && m.scheduler.currentCycle == 0 == m.served && m.timers.channels == Reset().timers
    requires FifosHum(m.apu.State()) && ChannelsReady(m.dma.channels)
    modifies m, m.irq, m.timers, m.apu, m.dma, m.scheduler
    ensures m.Valid() && m.scheduler.currentCycle == 62
    ensures TimersHum(m.timers.channels, 62, 0, 0) && FifosHum(m.apu.State()) && ChannelsReady(m.dma.channels)
  {
    hide Timers.AdvanceTo, SwitchedOn, TimerReference.Valid, OnFifo;
    SwitchOnTimer(m, 0, 0);
    ghost var one := Timers.AdvanceTo(m.timers.channels, 30).channels;
    FirstTicks(one);
    QuietService(m, 30);
    SwitchOnTimer(m, 1, 30);
    SecondTicks(one, Timers.AdvanceTo(m.timers.channels, 61).channels);
    QuietService(m, 61);
    m.scheduler.currentCycle := 62;
  }

  method Hum(m: Machine, first: Outcomes, rounds: seq<Outcomes>) returns (ended: bool)
    requires m.Valid() && m.scheduler.currentCycle == 62
    requires TimersHum(m.timers.channels, 62, 0, 0) && FifosHum(m.apu.State()) && ChannelsReady(m.dma.channels)
    requires forall o | o in rounds :: FourWords(o)
    requires 93 + CostBound([first]) + CostBound(rounds) <= TimerReference.HORIZON
    modifies m, m.irq, m.timers, m.lcd, m.apu, m.dma, m.scheduler
    ensures m.Valid() && !ended
  {
    hide FifosHum, TimersHum, FourWords, Humming, KeepsBusy, Settled, AfterRound, RoundBusy, TimerReference.Valid, DmaEngine.AllValid,
         ChannelsReady, CostBound;
    ghost var before := m.HardwareAt(62);
    HumBegins(before, first);
    RoundByRound(before, [first]);
    ended := m.ServiceDueHardware([first]);
    m.scheduler.currentCycle := 93;
    RoundsAreLong(rounds);
    TwoFifosKeepBusy(m.HardwareAt(93), 1, 1, rounds);
    ended := m.ServiceDueHardware(rounds);
  }

  method SwitchOnTimer(m: Machine, i: nat, now: nat)
    requires i < 4 && m.TimersServed() && m.served == now <= TimerReference.HORIZON
    modifies m.timers
    ensures m.TimersServed() && m.timers.channels == SwitchedOn(old(m.timers.channels), i, now)
  {
    hide TimerReference.Valid;
    m.timers.WriteReload(i, HUM_RELOAD, now);
    m.timers.WriteControl(i, 0x80, now);
  }

  lemma {:induction false} RoundsAreLong(rounds: seq<Outcomes>)
    requires forall o | o in rounds :: FourWords(o)
    ensures 30 * |rounds| <= CostBound(rounds)
    decreases |rounds|
  {
    if rounds != [] {
      RoundsAreLong(rounds[1..]);
      assert rounds[0] in rounds;
      assert SumOf(rounds[0], 1) >= 0;
      assert SumOf(rounds[0], 2) >= 28;
      assert SumOf(rounds[0], 3) >= 56;
      assert SumOf(rounds[0], 4) >= 56;
    }
  }
}
