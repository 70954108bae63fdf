/** A due DMA channel served over real memory: service_due's loop body, from the channel to its next state. */
module DmaService {
  import opened Basics
  import opened RamBus
  import opened DmaCopy
  import DmaEngine
  import DmaTransfer
  import Irq

  /** What the transfer of a job means: unit by unit over the bus, or by the shortcut where that differs. */
  function Meaning(m: Ram, latch: u32, job: Job, contended: bool): (x: Moved)
    requires WellSized(m) && InRam(job, job.units)
  {
    if RamToVram(job) && !StaysInRegion(job) then VramUnits(m, latch, job, contended, job.units)
    else Units(m, latch, job, contended, job.units)
  }

  /**
   The channel transfers and is finished or made ready to repeat: memory, the channel and the cycles are
   those of a unit-by-unit transfer, whichever loop moved the bytes, but for a RAM-to-VRAM source that
   leaves its region.
   */
  method ServeOverRam(dma: DmaEngine.DmaController, i: nat, now: nat, mem: Memory, irq: Irq.IrqController) returns (cycles: nat)
    requires dma.Valid() && i < DmaEngine.CHANNELS && DmaEngine.DueAt(dma.channels[i], now) && mem.Valid()
    requires InRam(DmaEngine.JobOf(dma.channels[i], i), DmaEngine.JobOf(dma.channels[i], i).units)
    modifies dma, irq, mem.ewram, mem.iwram, mem.vram
    ensures dma.Valid() && dma.nextEvent == old(dma.nextEvent)
    ensures var ch := old(dma.channels[i]);
      var x := Meaning(old(mem.Contents()), ch.latch, DmaEngine.JobOf(ch, i), mem.contended);
      && mem.Contents() == x.ram && cycles == x.cycles
      && dma.channels == old(dma.channels)[i := DmaEngine.Served(ch, i, DmaEngine.Outcome(x.source, x.destination, x.latch, x.cycles))]
    ensures irq.State() ==
      if old(dma.channels[i]).control.irq then Irq.Request(old(irq.State()), Irq.DmaMask(i)) else old(irq.State())
  {
    var ch := dma.channels[i];
    var job := DmaEngine.JobOf(ch, i);
    DmaEngine.JobIsReady(ch, i, now);
    hide DmaEngine.JobOf, Units, VramUnits, InRam, Aligned, StaysInRegion, RamToVram, DmaEngine.Served, Irq.Request;
    var latch, source, destination, spent := DmaTransfer.Transfer(mem, job, ch.latch);
    dma.ServeChannel(i, DmaEngine.Outcome(source, destination, latch, spent), irq);
    ServedKeepsValid(old(dma.channels), i, now, DmaEngine.Outcome(source, destination, latch, spent), dma.nextEvent);
    cycles := spent;
  }

  lemma ServedKeepsValid(chs: seq<DmaEngine.Channel>, i: nat, now: nat, o: DmaEngine.Outcome, next: nat)
    requires |chs| == DmaEngine.CHANNELS && i < DmaEngine.CHANNELS && DmaEngine.DueAt(chs[i], now)
    requires DmaEngine.AllValid(chs) && DmaEngine.NotLate(chs, next)
    ensures var after := chs[i := DmaEngine.Served(chs[i], i, o)];
      DmaEngine.AllValid(after) && DmaEngine.NotLate(after, next)
  {
    DmaEngine.ServedStaysValid(chs[i], i, now, o);
  }
}
