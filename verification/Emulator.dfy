/**
 The hardware service loop (src/core/emulator.cpp service_due_hardware and refresh_schedule, with
 service_timers of src/core/bus.cpp): every subsystem is brought up to the current cycle, and DMA, which
 takes time itself, repeats the round until nothing more is due.
 */
module Emulator {
  import opened Basics
  import Irq
  import Apu
  import Lcd
  import Timers
  import TimerReference
  import TimerUnit
  import DmaEngine
  import DmaRounds
  import Scheduler
  import opened ServiceRounds

  function SumOf(o: seq<DmaEngine.Outcome>, n: nat): nat
    requires n <= |o|
  {
    if n == 0 then 0 else SumOf(o, n - 1) + o[n - 1].cycles
  }

  /** No round of transfers outlasts a line. */
  ghost predicate AllBrief(rounds: seq<Outcomes>) {
    forall o | o in rounds :: 2 + SumOf(o, DmaEngine.CHANNELS) <= Lcd.LINE_CYCLES
  }

  lemma OneRoundCosts(rounds: seq<Outcomes>)
    requires rounds != []
    ensures CostBound(rounds) == 2 + SumOf(rounds[0], DmaEngine.CHANNELS) + CostBound(rounds[1..])
  {
  }

  lemma BriefRound(rounds: seq<Outcomes>, o: Outcomes)
    requires o in rounds
    ensures AllBrief(rounds) ==> 2 + SumOf(o, DmaEngine.CHANNELS) <= Lcd.LINE_CYCLES
  {
  }

  /** No more than this many cycles pass in a service with these transfers. */
  function CostBound(rounds: seq<Outcomes>): nat {
    if rounds == [] then 0 else 2 + SumOf(rounds[0], DmaEngine.CHANNELS) + CostBound(rounds[1..])
  }

  lemma {:induction false} BusyBounded(chs: seq<DmaEngine.Channel>, now: nat, o: seq<DmaEngine.Outcome>, n: nat)
    requires n <= |chs| == |o|
    ensures DmaEngine.BusyCycles(chs, now, o, n) <= 1 + SumOf(o, n)
    decreases n
  {
    if n > 0 {
      BusyBounded(chs, now, o, n - 1);
    }
  }

  /** What the CPU does in a stretch of its run, as far as the hardware it shares can tell. */
  datatype CpuAction =
    | Execute(cycles: nat)
    | ServiceBatch(moved: Outcomes)
    | ServeDma(moved: Outcomes)
    | WriteTimer(index: nat, isControl: bool, half: u16)
    | WriteDmaAddress(index: nat, isDestination: bool, word: u32)
    | WriteDmaCount(index: nat, half: u16)
    | WriteDmaControl(index: nat, control: DmaEngine.Control)
    | WriteDispstat(stat: Lcd.Dispstat)
    | WriteIrq(address: nat, value: Irq.Mask, width: Irq.Width)
    | Acknowledge(mask: Irq.Mask)
    | WriteSerial(active: bool, irq: bool, length: nat)
    | WriteSound(enabled: bool, timerA: nat, timerB: nat, levelA: nat, levelB: nat)

  predicate NamesChannel(a: CpuAction) {
    a.WriteTimer? || a.WriteDmaAddress? || a.WriteDmaCount? || a.WriteDmaControl? ==> a.index < 4
  }

  function ActionCost(a: CpuAction): nat {
    match a
    case Execute(cycles) => cycles
    case ServiceBatch(moved) => 2 + SumOf(moved, DmaEngine.CHANNELS)
    case ServeDma(moved) => 2 + SumOf(moved, DmaEngine.CHANNELS)
    case _ => 0
  }

  function ActionsCost(actions: seq<CpuAction>): nat {
    if actions == [] then 0 else ActionCost(actions[0]) + ActionsCost(actions[1..])
  }

  /** One turn of run_until: what the CPU does, and what DMA moves in the service after it. */
  datatype Turn = Turn(actions: seq<CpuAction>, rounds: seq<Outcomes>)

  predicate TurnFits(t: Turn) {
    forall a :: a in t.actions ==> NamesChannel(a)
  }

  /** No step of the CPU outlasts the visible part of a line, and no round of transfers a whole one. */
  ghost predicate Brief(t: Turn) {
    (forall a | a in t.actions :: ActionCost(a) <= Lcd.HDRAW_CYCLES) && AllBrief(t.rounds)
  }

  function TurnsCost(turns: seq<Turn>): nat {
    if turns == [] then 0 else ActionsCost(turns[0].actions) + CostBound(turns[0].rounds) + TurnsCost(turns[1..])
  }

  class Machine {
    const irq: Irq.IrqController
    const timers: TimerUnit.TimerUnit
    const lcd: Lcd.LcdUnit
    const apu: Apu.AudioUnit
    const dma: DmaEngine.DmaController
    const scheduler: Scheduler.EventScheduler
    var sioActive: bool
    var sioEventCycle: nat
    var sioIrq: bool
    var skipRender: bool
    /** Lines handed to the renderer. */
    var rendered: seq<nat>
    /** The cycle up to which the timers have been serviced. */
    ghost var served: nat
    /** When the LCD was serviced last, and whether it always was on time and no line was skipped. */
    ghost var drawn: nat
    ghost var onTime: bool

    ghost predicate TimersServed()
      reads this`served, timers
    {
      served < NEVER && TimerReference.Valid(timers.channels, served)
    }

    /** If the LCD has been on time, what has been rendered is every visible line so far, in order. */
    ghost predicate Drawn()
      reads this`drawn, this`onTime, this`rendered, lcd
    {
      Lcd.Rendering(lcd.State(), drawn, onTime, rendered)
    }

    /** Between services: the parts are consistent, no timer has missed an event, and the LCD is in phase. */
    ghost predicate Valid()
      reads this`served, this`drawn, this`onTime, this`rendered, timers, lcd, dma, scheduler
    {
      && TimersServed() && dma.Valid() && scheduler.Valid() && Drawn()
      && served <= scheduler.currentCycle <= TimerReference.HORIZON && drawn <= scheduler.currentCycle
    }

    /** The parts as reset leaves them. */
    constructor ()
      ensures Valid() && scheduler.currentCycle == 0 && HardwareAt(0) == Reset()
      ensures served == drawn == 0 && onTime && !skipRender
      ensures fresh(irq) && fresh(timers) && fresh(lcd) && fresh(apu) && fresh(dma) && fresh(scheduler)
    {
      irq := new Irq.IrqController();
      timers := new TimerUnit.TimerUnit();
      lcd := new Lcd.LcdUnit();
      apu := new Apu.AudioUnit();
      dma := new DmaEngine.DmaController();
      scheduler := new Scheduler.EventScheduler(0);
      sioActive, sioEventCycle, sioIrq, skipRender, rendered, served := false, NEVER, false, false, [], 0;
      drawn, onTime := 0, true;
      new;
      Lcd.NothingRendered();
    }

    function SerialNextEvent(): nat
      reads this`sioActive, this`sioEventCycle
    {
      if sioActive then sioEventCycle else NEVER
    }

    /** Nothing but a delayed interrupt is due at cycle c. */
    ghost predicate QuietAt(c: nat)
      reads this`sioActive, this`sioEventCycle, timers, lcd, apu, dma
    {
      && lcd.nextEvent > c && lcd.scanline == None
      && Timers.Quiet(timers.channels, c)
      && SerialNextEvent() > c
      && Apu.NextEvent(apu.State()) > c && !apu.requestA && !apu.requestB
      && dma.nextEvent > c
    }

    /** The serial part of service_timers. */
    method ServiceSerial(now: nat)
      requires now < NEVER
      modifies this`sioActive, this`sioEventCycle, irq
      ensures SerialNextEvent() > now
      ensures old(SerialNextEvent()) > now ==> SerialNextEvent() == old(SerialNextEvent()) && irq.State() == old(irq.State())
      ensures old(SerialNextEvent()) <= now && sioIrq ==> irq.State() == Irq.Request(old(irq.State()), Irq.SERIAL)
    {
      if sioActive && now >= sioEventCycle {
        sioActive := false;
        sioEventCycle := NEVER;
        if sioIrq {
          irq.RequestNow(Irq.SERIAL);
        }
      }
    }

    /** The FIFO part of service_timers: a hungry FIFO fires its DMA line. */
    method ServiceFifos(now: nat)
      requires dma.Valid()
      modifies apu, dma
      ensures dma.Valid() && !apu.requestA && !apu.requestB
      ensures DmaEngine.AllMarked(old(dma.channels), dma.channels, FifoLines(old(apu.requestA), old(apu.requestB)), now)
      ensures apu.State() == old(apu.State()).(requestA := false, requestB := false)
      ensures !old(apu.requestA) && !old(apu.requestB) ==> dma.nextEvent == old(dma.nextEvent)
    {
      hide DmaEngine.AllMarked, DmaEngine.AllValid, DmaEngine.NotLate;
      ghost var before := dma.channels;
      DmaEngine.NoneMarked(before, now);
      var a := apu.TakeRequestA();
      if a {
        dma.RequestFifo(1, now);
      }
      ghost var middle := dma.channels;
      DmaEngine.NoneMarked(middle, now);
      var b := apu.TakeRequestB();
      if b {
        dma.RequestFifo(2, now);
      }
      DmaEngine.MarkedTwice(before, middle, dma.channels, if a then {DmaEngine.FifoA} else {}, if b then {DmaEngine.FifoB} else {}, now);
    }

    /** What decides how a service at cycle `now` goes on. */
    ghost function HardwareAt(now: nat): Hardware
      reads timers, apu, lcd, dma
    {
      Hardware(timers.channels, apu.State(), lcd.State(), dma.channels, now)
    }

    /** service_timers: the timers' overflows clock the FIFOs, and those that then ask fire their lines. */
    method ServiceTimers(now: nat) returns (ghost lines: set<DmaEngine.Line>)
      requires TimersServed() && dma.Valid() && served <= now <= TimerReference.HORIZON
      modifies this`sioActive, this`sioEventCycle, this`served, irq, timers, apu, dma
      ensures TimersServed() && dma.Valid() && served == now
      ensures SerialNextEvent() > now && !apu.requestA && !apu.requestB
      ensures DmaEngine.AllMarked(old(dma.channels), dma.channels, lines, now)
      ensures Sized(old(HardwareAt(now))) && timers.channels == Timers.AdvanceTo(old(timers.channels), now).channels
      ensures var clocked := Clocked(old(HardwareAt(now)));
        && lines == FifoLines(clocked.requestA, clocked.requestB)
        && apu.State() == clocked.(requestA := false, requestB := false)
      ensures old(QuietAt(now)) ==> irq.State() == old(irq.State()) && dma.nextEvent == old(dma.nextEvent)
    {
      hide TimerReference.Valid, Timers.AdvanceTo, Timers.Quiet, TimerUnit.RaiseAll, TimerUnit.ClockAll, Irq.Request,
           DmaEngine.AllMarked, DmaEngine.AllValid, DmaEngine.NotLate;
      TimerReference.AdvanceFromValid(timers.channels, served, now);
      if QuietAt(now) {
        Timers.AdvanceWhenQuiet(timers.channels, now);
        TimerUnit.NoOverflow(irq.State(), apu.State());
      }
      timers.Advance(now, irq, apu);
      served := now;
      ServiceSerial(now);
      lines := FifoLines(apu.requestA, apu.requestB);
      ServiceFifos(now);
    }

    /** Every line on offer goes to the renderer, unless the frame is skipped. */
    method Render()
      modifies this`rendered, lcd`scanline
      ensures lcd.scanline == None
      ensures rendered == old(rendered) + (if old(lcd.scanline).Some? && !skipRender then [old(lcd.scanline).value] else [])
    {
      var line := lcd.ConsumeScanline();
      while line.Some?
        invariant lcd.scanline == None
        invariant rendered + (if line.Some? && !skipRender then [line.value] else [])
               == old(rendered) + (if old(lcd.scanline).Some? && !skipRender then [old(lcd.scanline).value] else [])
        decreases line.Some?
      {
        if !skipRender {
          rendered := rendered + [line.value];
        }
        line := lcd.ConsumeScanline();
      }
    }

    /** The LCD part of a round: advance, and fire the DMA line of a blanking that began. */
    method ServiceLcd(now: nat) returns (ghost lines: set<DmaEngine.Line>)
      requires dma.Valid() && Drawn() && drawn <= now
      modifies this`rendered, this`drawn, this`onTime, irq, lcd, dma
      ensures dma.Valid() && lcd.nextEvent > now && lcd.scanline == None
      ensures Drawn() && drawn == now && onTime == (old(onTime) && !skipRender && Lcd.OnTime(old(drawn), now))
      ensures DmaEngine.AllMarked(old(dma.channels), dma.channels, lines, now)
      ensures lcd.State() == Lcd.AdvanceClock(old(lcd.State()), now).(scanline := None)
      ensures lines == BlankingLines(old(lcd.State()), Lcd.AdvanceClock(old(lcd.State()), now))
      ensures old(lcd.nextEvent) > now ==>
        irq.State() == old(irq.State()) && dma.nextEvent == old(dma.nextEvent) && lcd.nextEvent == old(lcd.nextEvent)
    {
      hide Lcd.Event, Lcd.EventRaises, Lcd.RaiseEach, Lcd.Rendering, Lcd.OnTime, DmaEngine.AllMarked, DmaEngine.AllValid, DmaEngine.NotLate;
      Lcd.RenderingGoesOn(lcd.State(), drawn, onTime, rendered, now, skipRender);
      onTime, drawn := onTime && !skipRender && Lcd.OnTime(drawn, now), now;
      var wasHblank, wasVblank := lcd.hblank, lcd.vblank;
      Lcd.AdvancePasses(lcd.State(), now);
      Lcd.RaiseNone(irq.State());
      lcd.AdvanceTo(now, irq);
      lines := RequestBlanking(!wasHblank && lcd.hblank && !lcd.vblank, !wasVblank && lcd.vblank, now);
      Render();
    }

    method RequestBlanking(hblank: bool, vblank: bool, now: nat) returns (ghost lines: set<DmaEngine.Line>)
      requires dma.Valid()
      modifies dma
      ensures dma.Valid() && (!hblank && !vblank ==> dma.nextEvent == old(dma.nextEvent))
      ensures DmaEngine.AllMarked(old(dma.channels), dma.channels, lines, now)
      ensures lines == (if hblank then {DmaEngine.HBlankLine} else {}) + (if vblank then {DmaEngine.VBlankLine} else {})
    {
      hide DmaEngine.AllMarked, DmaEngine.AllValid, DmaEngine.NotLate;
      ghost var before := dma.channels;
      DmaEngine.NoneMarked(before, now);
      if hblank {
        dma.MarkPending(DmaEngine.HBlank, now);
      }
      ghost var middle := dma.channels;
      DmaEngine.NoneMarked(middle, now);
      if vblank {
        dma.MarkPending(DmaEngine.VBlank, now);
      }
      ghost var first := if hblank then {DmaEngine.HBlankLine} else {};
      ghost var second := if vblank then {DmaEngine.VBlankLine} else {};
      DmaEngine.MarkedTwice(before, middle, dma.channels, first, second, now);
      lines := first + second;
    }

    /** One round of service_due_hardware, in which the DMA request lines `lines` fired. */
    method Round(now: nat, outcomes: Outcomes) returns (cycles: nat, ghost lines: set<DmaEngine.Line>)
      requires TimersServed() && dma.Valid() && served <= now <= TimerReference.HORIZON && Drawn() && drawn <= now
      modifies this`sioActive, this`sioEventCycle, this`rendered, this`served, this`drawn, this`onTime, irq, timers, lcd, apu, dma
      ensures TimersServed() && dma.Valid() && served == now && QuietAt(now)
      ensures Drawn() && drawn == now && onTime == (old(onTime) && !skipRender && Lcd.OnTime(old(drawn), now))
      ensures DmaRounds.IsRound(old(dma.channels), dma.channels, now, lines, outcomes)
      ensures Sized(old(HardwareAt(now))) && lines == LinesAt(old(HardwareAt(now)))
      ensures HardwareAt(now + cycles) == AfterRound(old(HardwareAt(now)), outcomes)
      ensures cycles > 0 <==> RoundBusy(old(HardwareAt(now)))
      ensures cycles <= 2 + SumOf(outcomes, DmaEngine.CHANNELS)
      ensures old(QuietAt(now)) ==> cycles == 0 && Irq.NextEvent(irq.State()) > now
    {
      hide TimerReference.Valid, Timers.Quiet, Irq.Advance, Irq.NextEvent, DmaEngine.ServedChannel, DmaEngine.AllValid, DmaEngine.NotLate,
           DmaEngine.AllMarked, DmaRounds.IsRound, DmaRounds.Busy, DmaRounds.RoundOf, DmaRounds.TimeAfter, Clocked,
           FifoLines, BlankingLines, Timers.AdvanceTo, Lcd.AdvanceClock, Lcd.Rendering, Lcd.OnTime, Apu.Advance;
      ghost var before := dma.channels;
      Irq.AdvanceClearsDue(irq.State(), now);
      irq.AdvanceTo(now);
      ghost var fifo := ServiceTimers(now);
      ghost var middle := dma.channels;
      ghost var blanking := ServiceLcd(now);
      ghost var marked := dma.channels;
      DmaEngine.MarkedTwice(before, middle, marked, fifo, blanking, now);
      lines := fifo + blanking;
      ApuPassesBoth(apu.State(), now);
      apu.AdvanceTo(now);
      BusyBounded(marked, now, outcomes, DmaEngine.CHANNELS);
      cycles := dma.ServiceDue(now, outcomes, irq);
      DmaRounds.ServiceIsRound(before, marked, dma.channels, now, lines, outcomes);
      TimersAreQuiet(timers.channels, now);
    }

    function IrqNextEvent(): nat
      reads irq
    {
      Irq.NextEvent(irq.State())
    }

    /** The scheduler's slots hold every subsystem's next event. */
    ghost predicate Refreshed()
      reads this`sioActive, this`sioEventCycle, irq, timers, lcd, apu, dma, scheduler
    {
      && scheduler.Valid()
      && scheduler.events == [lcd.nextEvent, TimerReference.NextEvent(timers.channels), dma.nextEvent,
                              Apu.NextEvent(apu.State()), SerialNextEvent(), IrqNextEvent()]
    }

    /** refresh_schedule; `cpuCycle` is the CPU's clock. */
    method RefreshSchedule(cpuCycle: nat)
      requires scheduler.Valid()
      modifies scheduler
      ensures Refreshed() && scheduler.Valid() && scheduler.currentCycle == cpuCycle
    {
      hide Scheduler.IsMinimum, TimerReference.NextEvent, Irq.NextEvent, Apu.NextEvent;
      scheduler.currentCycle := cpuCycle;
      scheduler.SetNextEvent(Scheduler.Ppu, lcd.nextEvent);
      var timersNext := timers.NextEventCycle();
      scheduler.SetNextEvent(Scheduler.Timers, timersNext);
      scheduler.SetNextEvent(Scheduler.Dma, dma.nextEvent);
      scheduler.SetNextEvent(Scheduler.Apu, Apu.NextEvent(apu.State()));
      scheduler.SetNextEvent(Scheduler.Serial, SerialNextEvent());
      scheduler.SetNextEvent(Scheduler.Irq, Irq.NextEvent(irq.State()));
    }

    /** The first of these rounds, and what it leaves to the others. */
    method FirstRound(now: nat, rounds: seq<Outcomes>) returns (cycles: nat)
      requires rounds != []
      requires TimersServed() && dma.Valid() && served <= now <= TimerReference.HORIZON && Drawn() && drawn <= now
      modifies this`sioActive, this`sioEventCycle, this`rendered, this`served, this`drawn, this`onTime, irq, timers, lcd, apu, dma
      ensures TimersServed() && dma.Valid() && served == now && QuietAt(now)
      ensures Drawn() && drawn == now && onTime == (old(onTime) && !skipRender && Lcd.OnTime(old(drawn), now))
      ensures cycles <= 2 + SumOf(rounds[0], DmaEngine.CHANNELS) && (cycles <= Lcd.LINE_CYCLES ==> Lcd.OnTime(now, now + cycles))
      ensures var h := old(HardwareAt(now));
        if cycles > 0 then
          && (KeepsBusy(h, rounds) <==> KeepsBusy(HardwareAt(now + cycles), rounds[1..]))
          && Settled(h, rounds) == Settled(HardwareAt(now + cycles), rounds[1..])
        else !KeepsBusy(h, rounds) && Settled(h, rounds) == HardwareAt(now)
      ensures old(DmaRounds.OneLine(dma.channels)) ==> DmaRounds.OneLine(dma.channels)
      ensures old(DmaRounds.OneLine(dma.channels)) && cycles > 0 ==>
        DmaRounds.TotalWeight(dma.channels) < old(DmaRounds.TotalWeight(dma.channels))
      ensures old(QuietAt(now)) ==> cycles == 0 && IrqNextEvent() > now
    {
      hide TimerReference.Valid, Irq.NextEvent, DmaEngine.AllValid, DmaEngine.NotLate, DmaRounds.IsRound, DmaRounds.Busy, DmaRounds.OneLine,
           DmaRounds.TotalWeight, AfterRound, LinesAt, KeepsBusy, Settled, Drawn, Lcd.OnTime, SumOf, QuietAt;
      ghost var before := dma.channels;
      ghost var h := HardwareAt(now);
      ghost var lines;
      cycles, lines := Round(now, rounds[0]);
      RoundByRound(h, rounds);
      SoonOnTime(now + cycles);
      if DmaRounds.OneLine(before) {
        DmaRounds.BusyRoundLowers(before, dma.channels, now, lines, rounds[0]);
      }
    }

    /** The last step of reset: the scheduler learns what comes first. */
    method Start()
      requires Valid() && onTime && !skipRender && drawn == scheduler.currentCycle
      modifies scheduler
      ensures Valid() && OnSchedule() && scheduler.currentCycle == old(scheduler.currentCycle)
    {
      hide Drawn, Refreshed, TimerReference.Valid, DmaEngine.AllValid, DmaEngine.NotLate, Scheduler.IsMinimum;
      RefreshSchedule(scheduler.currentCycle);
    }

    /**
     service_due_hardware. Round k moves what `rounds[k]` says, and its request lines are those that the
     hardware fires; `done` tells that a round found no DMA to serve, which is when the loop ends. If all
     repeating channels are on one request line that happens within 21 rounds. Then nothing is due at the cycle
     reached but, perhaps, a delayed interrupt; and if that was all that was due on entry, one round clears it.
     */
    method ServiceDueHardware(rounds: seq<Outcomes>) returns (done: bool)
      requires Valid() && scheduler.currentCycle + CostBound(rounds) <= TimerReference.HORIZON
      modifies this`sioActive, this`sioEventCycle, this`rendered, this`served, this`drawn, this`onTime, irq, timers, lcd, apu, dma, scheduler
      ensures Valid() && Refreshed()
      ensures old(scheduler.currentCycle) <= scheduler.currentCycle <= old(scheduler.currentCycle) + CostBound(rounds)
      ensures done <==> !KeepsBusy(old(HardwareAt(scheduler.currentCycle)), rounds)
      ensures HardwareAt(scheduler.currentCycle) == Settled(old(HardwareAt(scheduler.currentCycle)), rounds)
      ensures DmaRounds.OneLine(old(dma.channels)) && |rounds| > DmaRounds.MAX_WEIGHT ==> done
      ensures done ==> rounds != [] && QuietAt(scheduler.currentCycle) && served == scheduler.currentCycle == drawn
      ensures old(onTime) && !skipRender && Lcd.OnTime(old(drawn), old(scheduler.currentCycle)) && AllBrief(rounds) ==> onTime
      ensures done ==> scheduler.nextEvent > scheduler.currentCycle || IrqNextEvent() == scheduler.nextEvent
      ensures old(QuietAt(scheduler.currentCycle)) && rounds != [] ==>
        done && scheduler.currentCycle == old(scheduler.currentCycle) && scheduler.nextEvent > scheduler.currentCycle
    {
      hide TimerReference.Valid, TimerReference.NextEvent, Irq.NextEvent, DmaEngine.AllValid, DmaEngine.NotLate, Scheduler.IsMinimum,
           DmaRounds.OneLine, DmaRounds.TotalWeight, HardwareAt, RoundBusy, KeepsBusy, Settled, Drawn, Lcd.OnTime, AllBrief, SumOf,
           QuietAt, Refreshed, CostBound;
      var stable := scheduler.currentCycle;
      ghost var start := HardwareAt(stable);
      var left := rounds;
      ghost var first := true;
      ghost var oneLine := DmaRounds.OneLine(dma.channels);
      ghost var punctual := onTime && !skipRender && Lcd.OnTime(drawn, stable) && AllBrief(rounds);
      done := false;
      while !done && left != []
        invariant TimersServed() && dma.Valid() && scheduler.Valid() && served <= stable
        invariant Drawn() && drawn <= stable && (done ==> drawn == stable) && (forall o :: o in left ==> o in rounds)
        invariant punctual ==> onTime && Lcd.OnTime(drawn, stable)
        invariant scheduler.currentCycle == stable
        invariant old(scheduler.currentCycle) <= stable
        invariant stable + CostBound(left) <= old(scheduler.currentCycle) + CostBound(rounds)
        invariant |left| <= |rounds| && (done ==> |left| < |rounds|)
        invariant if done then !KeepsBusy(start, rounds) && HardwareAt(stable) == Settled(start, rounds)
                  else (KeepsBusy(HardwareAt(stable), left) <==> KeepsBusy(start, rounds))
                       && Settled(HardwareAt(stable), left) == Settled(start, rounds)
        invariant oneLine ==> DmaRounds.OneLine(dma.channels)
        invariant oneLine && !done ==> DmaRounds.TotalWeight(dma.channels) + |rounds| - |left| <= DmaRounds.TotalWeight(old(dma.channels))
        invariant done ==> QuietAt(stable) && served == stable
        invariant first ==> left == rounds && !done
        invariant first ==> stable == old(scheduler.currentCycle) && (old(QuietAt(scheduler.currentCycle)) ==> QuietAt(stable))
        invariant !first && old(QuietAt(scheduler.currentCycle)) ==>
          done && stable == old(scheduler.currentCycle) && IrqNextEvent() > stable
        decreases |left|
      {
        assert left[0] in left;
        OneRoundCosts(left);
        var cycles := FirstRound(stable, left);
        BriefRound(rounds, left[0]);
        left := left[1..];
        if cycles != 0 {
          stable := stable + cycles;
          scheduler.currentCycle := stable;
        } else {
          done := true;
        }
        first := false;
      }
      if !done {
        RoundByRound(HardwareAt(stable), left);
      }
      DmaRounds.WeightBounded(old(dma.channels));
      RefreshSchedule(stable);
      if done {
        NextIsIrqOrLater(stable);
      }
    }

    /** A service no more than a line after the last one is on time. */
    lemma SoonOnTime(now: nat)
      requires Drawn() && drawn <= now
      ensures now <= drawn + Lcd.LINE_CYCLES || now <= lcd.nextEvent + Lcd.HDRAW_CYCLES ==> Lcd.OnTime(drawn, now)
    {
      if now <= drawn + Lcd.LINE_CYCLES || now <= lcd.nextEvent + Lcd.HDRAW_CYCLES {
        Lcd.SoonIsOnTime(lcd.State(), drawn, onTime, rendered, now);
      }
    }

    /** Once everything but the interrupt pipeline is quiet, only that slot can hold the scheduler back. */
    lemma NextIsIrqOrLater(c: nat)
      requires Refreshed() && QuietAt(c) && TimersServed() && served == c <= TimerReference.HORIZON
      ensures scheduler.nextEvent > c || scheduler.nextEvent == IrqNextEvent()
      ensures IrqNextEvent() > c ==> scheduler.nextEvent > c
    {
      hide TimerReference.Valid, TimerReference.NextEvent, Timers.Quiet, Irq.NextEvent, Apu.NextEvent;
      TimerReference.NextEventIsExact(timers.channels, c);
      var events := scheduler.events;
      assert events[0] > c && events[1] > c && events[2] > c && events[3] > c && events[4] > c;
    }

    /** While the CPU runs, at its cycle `now`. */
    ghost predicate Running(now: nat)
      reads this`served, this`drawn, this`onTime, this`rendered, timers, lcd, dma
    {
      TimersServed() && dma.Valid() && Drawn() && served <= now <= TimerReference.HORIZON && drawn <= now
    }

    /** service_dma: the transfers due at the CPU's cycle take time from it. */
    method ServeBus(now: nat, moved: Outcomes) returns (after: nat)
      requires Running(now) && now + 2 + SumOf(moved, DmaEngine.CHANNELS) <= TimerReference.HORIZON
      modifies irq, dma
      ensures Running(after) && now <= after <= now + 2 + SumOf(moved, DmaEngine.CHANNELS)
    {
      hide Drawn, TimerReference.Valid, DmaEngine.ServedChannel, DmaEngine.AllValid, DmaEngine.NotLate;
      after := now;
      if dma.nextEvent <= now {
        BusyBounded(dma.channels, now, moved, DmaEngine.CHANNELS);
        var cycles := dma.ServiceDue(now, moved, irq);
        after := now + cycles;
      }
    }

    /** The writes to registers of the timers and of DMA; the timers are serviced before they are written. */
    method WriteChannel(a: CpuAction, now: nat)
      requires Running(now) && NamesChannel(a)
      modifies this`sioActive, this`sioEventCycle, this`served, irq, timers, apu, dma
      ensures Running(now)
    {
      hide Drawn, Clocked, FifoLines, Timers.AdvanceTo, HardwareAt, TimerReference.Valid, DmaEngine.AllValid, DmaEngine.NotLate, DmaEngine.AllMarked;
      match a {
        case WriteTimer(i, isControl, half) =>
          ghost var lines := ServiceTimers(now);
          if isControl {
            timers.WriteControl(i, half, now);
          } else {
            timers.WriteReload(i, half, now);
          }
        case WriteDmaAddress(i, isDestination, word) => dma.WriteAddress(i, isDestination, word);
        case WriteDmaCount(i, half) => dma.WriteCount(i, half);
        case WriteDmaControl(i, control) => dma.WriteControl(i, control, now);
        case _ =>
      }
    }

    method WriteStat(stat: Lcd.Dispstat)
      requires Drawn()
      modifies lcd
      ensures Drawn() && lcd.nextEvent == old(lcd.nextEvent)
    {
      hide Lcd.WriteStat, Lcd.Rendering;
      Lcd.RenderingIgnoresDispstat(lcd.State(), drawn, onTime, rendered, stat);
      lcd.WriteDispstat(stat);
    }

    method Perform(a: CpuAction, now: nat) returns (after: nat)
      requires Running(now) && NamesChannel(a) && now + ActionCost(a) <= TimerReference.HORIZON
      modifies this`sioActive, this`sioEventCycle, this`sioIrq, this`served, irq, timers, lcd, apu, dma
      ensures Running(after) && now <= after <= now + ActionCost(a) && lcd.nextEvent == old(lcd.nextEvent)
    {
      hide Drawn, Clocked, FifoLines, Timers.AdvanceTo, HardwareAt, TimerReference.Valid, DmaEngine.AllValid, DmaEngine.NotLate, DmaEngine.AllMarked,
           Irq.Advance, Irq.Written, Irq.Acknowledge;
      after := now;
      match a {
        case Execute(cycles) =>
          after := now + cycles;
        case ServiceBatch(moved) =>
          ghost var lines := ServiceTimers(now);
          after := ServeBus(now, moved);
          irq.AdvanceTo(after);
        case ServeDma(moved) =>
          after := ServeBus(now, moved);
        case WriteDispstat(stat) => WriteStat(stat);
        case WriteIrq(address, value, width) => irq.WriteRegister(address, value, width);
        case Acknowledge(mask) => irq.AcknowledgeNow(mask);
        case WriteSerial(active, withIrq, length) =>
          sioActive, sioIrq := active, withIrq;
          sioEventCycle := if active then now + length else NEVER;
        case WriteSound(enabled, timerA, timerB, levelA, levelB) =>
          apu.enabled, apu.timerA, apu.timerB, apu.levelA, apu.levelB := enabled, timerA, timerB, levelA, levelB;
        case _ => WriteChannel(a, now);
      }
    }

    /**
     cpu_run_until: the CPU does what its program says, until its cycle reaches the target; a program with
     nothing left to do halts, and sleeps until then.
     */
    method CpuRun(start: nat, target: nat, actions: seq<CpuAction>) returns (now: nat)
      requires Running(start) && (forall a :: a in actions ==> NamesChannel(a))
      requires Max(start, target) + ActionsCost(actions) <= TimerReference.HORIZON
      modifies this`sioActive, this`sioEventCycle, this`sioIrq, this`served, irq, timers, lcd, apu, dma
      ensures Running(now) && Max(start, target) <= now <= Max(start, target) + ActionsCost(actions)
      ensures (forall a | a in actions :: ActionCost(a) <= Lcd.HDRAW_CYCLES) ==> now <= Max(start, target + Lcd.HDRAW_CYCLES)
      ensures lcd.nextEvent == old(lcd.nextEvent)
      ensures start >= target ==> now == start
      ensures start >= target ==> unchanged(this`sioActive, this`sioEventCycle, this`sioIrq, this`served, irq, timers, lcd, apu, dma)
    {
      hide Running, ActionCost, NamesChannel;
      now := start;
      var left := actions;
      while now < target && left != []
        invariant Running(now) && start <= now && (forall a :: a in left ==> NamesChannel(a))
        invariant Max(now, target) + ActionsCost(left) <= Max(start, target) + ActionsCost(actions)
        invariant lcd.nextEvent == old(lcd.nextEvent) && (forall a :: a in left ==> a in actions)
        invariant (forall a | a in actions :: ActionCost(a) <= Lcd.HDRAW_CYCLES) ==> now <= Max(start, target + Lcd.HDRAW_CYCLES)
        invariant start >= target ==> now == start
        invariant start >= target ==> unchanged(this`sioActive, this`sioEventCycle, this`sioIrq, this`served, irq, timers, lcd, apu, dma)
        decreases |left|
      {
        assert left[0] in left;
        now := Perform(left[0], now);
        left := left[1..];
      }
      if now < target {
        RunningLater(now, target);
        now := target;
      }
    }

    lemma RunningLater(now: nat, later: nat)
      requires Running(now) && now <= later <= TimerReference.HORIZON
      ensures Running(later)
    {
    }

    /** The LCD has been serviced up to now and on time all along, and the scheduler knows what comes next. */
    ghost predicate OnSchedule()
      reads this`sioActive, this`sioEventCycle, this`skipRender, this`drawn, this`onTime, irq, timers, lcd, apu, dma, scheduler
    {
      Refreshed() && drawn == scheduler.currentCycle && onTime && !skipRender
    }

    lemma NextIsSoon()
      ensures Refreshed() ==> scheduler.nextEvent <= lcd.nextEvent
    {
      hide TimerReference.NextEvent, Irq.NextEvent, Apu.NextEvent;
      if Refreshed() {
        assert scheduler.events[0] == lcd.nextEvent;
      }
    }

    lemma AllRendered()
      requires Valid() && onTime
      ensures rendered == Lcd.VisibleLines(0, Lcd.HblanksBy(drawn))
    {
    }

    /** How many turns may pass before time does: none, one to clear the interrupt pipeline, or one more. */
    ghost function Stalls(): nat
      reads this`sioActive, this`sioEventCycle, timers, lcd, apu, dma, scheduler
    {
      if scheduler.nextEvent > scheduler.currentCycle then 0 else if QuietAt(scheduler.currentCycle) then 1 else 2
    }

    /** One time round the loop of run_until. */
    method OneTurn(target: nat, turn: Turn) returns (done: bool, ghost channels: seq<DmaEngine.Channel>)
      requires Valid() && TurnFits(turn) && scheduler.currentCycle < target
      requires target + ActionsCost(turn.actions) + CostBound(turn.rounds) <= TimerReference.HORIZON
      modifies this`sioActive, this`sioEventCycle, this`sioIrq, this`rendered, this`served, this`drawn, this`onTime, irq, timers, lcd, apu, dma, scheduler
      ensures Valid() && Refreshed()
      ensures old(scheduler.currentCycle) <= scheduler.currentCycle <= target + ActionsCost(turn.actions) + CostBound(turn.rounds)
      ensures done ==> QuietAt(scheduler.currentCycle) && Stalls() <= 1
      ensures done && scheduler.currentCycle == old(scheduler.currentCycle) ==> Stalls() < old(Stalls())
      ensures !done ==> |turn.rounds| <= DmaRounds.MAX_WEIGHT || !DmaRounds.OneLine(channels)
      ensures old(OnSchedule()) && Brief(turn) ==> onTime && (done ==> OnSchedule())
    {
      hide Drawn, Lcd.OnTime, AllBrief, ActionCost, CostBound, ActionsCost, SumOf, NamesChannel, HardwareAt, KeepsBusy, Settled, TimerReference.Valid,
           Timers.Quiet, DmaEngine.AllValid, DmaEngine.NotLate, Scheduler.IsMinimum, DmaRounds.OneLine, Refreshed, QuietAt;
      ghost var cycle, next := scheduler.currentCycle, scheduler.nextEvent;
      ghost var quiet := QuietAt(cycle);
      NextIsSoon();
      var until := Min(scheduler.nextEvent, target);
      if until == NEVER {
        until := target;
      }
      var reached := CpuRun(scheduler.currentCycle, until, turn.actions);
      SoonOnTime(reached);
      scheduler.currentCycle := reached;
      channels := dma.channels;
      done := ServiceDueHardware(turn.rounds);
    }

    /**
     run_until, with a turn for each time round its loop, whatever the CPU's program does. Unless a service
     does not end, the target is reached within twice as many turns as cycles are left, and three; and a
     service ends, given rounds enough, if all repeating channels are on one line when it begins.
     */
    method RunUntil(target: nat, turns: seq<Turn>) returns (stuck: bool, ghost channels: seq<DmaEngine.Channel>, ghost rounds: nat)
      requires Valid() && Max(scheduler.currentCycle, target) + TurnsCost(turns) <= TimerReference.HORIZON
      requires forall t :: t in turns ==> TurnFits(t)
      modifies this`sioActive, this`sioEventCycle, this`sioIrq, this`rendered, this`served, this`drawn, this`onTime, irq, timers, lcd, apu, dma, scheduler
      ensures Valid() && scheduler.currentCycle >= old(scheduler.currentCycle)
      ensures !stuck && |turns| > 2 * (target - old(scheduler.currentCycle)) + 2 ==> scheduler.currentCycle >= target
      ensures !stuck && old(scheduler.currentCycle) < target <= scheduler.currentCycle ==>
        Refreshed() && QuietAt(scheduler.currentCycle)
      ensures stuck ==> rounds <= DmaRounds.MAX_WEIGHT || !DmaRounds.OneLine(channels)
      ensures old(OnSchedule()) && (forall t | t in turns :: Brief(t)) ==>
        onTime && rendered == Lcd.VisibleLines(0, Lcd.HblanksBy(drawn)) && (!stuck ==> drawn == scheduler.currentCycle)
    {
      hide Brief, Valid, TurnFits, ActionsCost, CostBound, Stalls, Refreshed, QuietAt, DmaRounds.OneLine;
      ghost var start := scheduler.currentCycle;
      var left := turns;
      ghost var punctual := OnSchedule() && forall t | t in turns :: Brief(t);
      stuck, channels, rounds := false, [], 0;
      FewStalls();
      while !stuck && left != [] && scheduler.currentCycle < target
        invariant Valid() && (forall t :: t in left ==> TurnFits(t) && t in turns)
        invariant punctual ==> onTime && (!stuck ==> OnSchedule())
        invariant start <= scheduler.currentCycle && |left| <= |turns|
        invariant Max(scheduler.currentCycle, target) + TurnsCost(left) <= TimerReference.HORIZON
        invariant !stuck && scheduler.currentCycle < target ==>
          |turns| - |left| + 2 * (target - scheduler.currentCycle) + Stalls() <= 2 * (target - start) + 2
        invariant !stuck && scheduler.currentCycle > start ==> Refreshed() && QuietAt(scheduler.currentCycle)
        invariant stuck ==> rounds <= DmaRounds.MAX_WEIGHT || !DmaRounds.OneLine(channels)
        decreases |left|
      {
        assert left[0] in left;
        rounds := |left[0].rounds|;
        var done;
        done, channels := OneTurn(target, left[0]);
        stuck := !done;
        left := left[1..];
      }
      if onTime {
        AllRendered();
      }
    }

    lemma FewStalls()
      ensures Stalls() <= 2
    {
    }
  }

  lemma ApuPassesBoth(s: Apu.ApuState, now: nat)
    requires now < NEVER
    ensures var after := Apu.Advance(s, now); Apu.NextEvent(after) > now && after.requestA == s.requestA && after.requestB == s.requestB
  {
  }

  lemma TimersAreQuiet(chs: Timers.Bank, now: nat)
    requires TimerReference.Valid(chs, now)
    ensures Timers.Quiet(chs, now)
  {
  }
}
