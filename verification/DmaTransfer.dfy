/**
 One channel's transfer over real memory: the three loops of service_due and the choice between them.
 */
module DmaTransfer {
  import opened Basics
  import opened RamBus
  import opened DmaCopy

  /** memcpy between ranges that do not overlap, or of different memories */
  method CopyBytes(dst: array<u8>, d: nat, src: array<u8>, s: nat, n: nat)
    requires d + n <= dst.Length && s + n <= src.Length
    requires dst == src ==> d + n <= s || s + n <= d
    modifies dst
    ensures dst[..] == Patched(old(dst[..]), d, old(src[..]), s, n)
  {
    for k := 0 to n
      invariant dst[..] == Patched(old(dst[..]), d, old(src[..]), s, k)
    {
      if dst == src {
        PatchedOutside(old(dst[..]), d, old(src[..]), s, k, s + k);
      }
      assert dst == src ==> dst[..][s + k] == old(src[..])[s + k];
      dst[d + k] := src[s + k];
    }
  }

  /** memcpy from one memory to another, or within one. */
  method CopyRange(mem: Memory, into: Region, d: nat, from: Region, s: nat, n: nat)
    requires mem.Valid() && d + n <= Capacity(into) && s + n <= Capacity(from)
    requires into == from ==> d + n <= s || s + n <= d
    modifies mem.ewram, mem.iwram, mem.vram
    ensures var m := old(mem.Contents());
      d + n <= |Of(m, into)| && s + n <= |Of(m, from)|
      && mem.Contents() == With(m, into, Patched(Of(m, into), d, Of(m, from), s, n))
  {
    hide Patched;
    CopyBytes(mem.Bytes(into), d, mem.Bytes(from), s, n);
  }

  /** read_raw_memory at an aligned offset within the memory */
  method ReadAligned(mem: Memory, from: Region, at: nat, w: Width) returns (value: u32)
    requires mem.Valid() && at < Capacity(from) && AlignDown(at, w) == at
    ensures at < |Of(mem.Contents(), from)| && 4 <= |Of(mem.Contents(), from)|
    ensures value == Load(Of(mem.Contents(), from), at, w)
  {
    hide Load, AlignDown;
    value := Memory.ReadArray(mem.Bytes(from), at, w);
  }

  /** The bulk copy from RAM to RAM. */
  method BulkCopy(mem: Memory, job: Job) returns (latch: u32, source: u32, destination: u32, cycles: nat)
    requires mem.Valid() && Burst(job) && job.units > 0 && Aligned(job.source, job.width)
    modifies mem.ewram, mem.iwram, mem.vram
    ensures Moved(mem.Contents(), latch, source, destination, cycles)
         == BulkCopied(old(mem.Contents()), job, mem.contended)
  {
    hide RegionOf, Offset, Load, Patched, Latched, Cycles, Aligned, AlignDown, Span, Capacity, Of, With;
    var from, into := RegionOf(job.source).value, RegionOf(job.destination).value;
    var s, d, w, n := Offset(job.source), Offset(job.destination), job.width, Bytes(job);
    CopyRange(mem, into, d, from, s, n);
    LastAligned(job);
    var last := ReadAligned(mem, from, s + n - Size(w), w);
    latch := Latched(last, w);
    cycles := job.units * (Cycles(from, w, mem.contended) + Cycles(into, w, mem.contended));
    source, destination := (job.source + n) % WORD_RANGE, (job.destination + n) % WORD_RANGE;
  }

  /** The last unit of the source starts at an aligned offset within its memory. */
  lemma LastAligned(job: Job)
    requires Burst(job) && job.units > 0 && Aligned(job.source, job.width)
    ensures var at := Offset(job.source) + Bytes(job) - Size(job.width);
      at < Capacity(RegionOf(job.source).value) && AlignDown(at, job.width) == at
  {
    hide AlignDown;
    OffsetsBound(job.source);
    AlignedSum(job.source, Offset(job.source), job.width, job.units - 1);
  }

  /** The loop from RAM to VRAM that does not go through the bus. */
  method VramLoop(mem: Memory, job: Job, latch: u32) returns (newLatch: u32, source: u32, destination: u32, cycles: nat)
    requires mem.Valid() && WorkRam(job.source)
    modifies mem.ewram, mem.iwram, mem.vram
    ensures Moved(mem.Contents(), newLatch, source, destination, cycles)
         == VramUnits(old(mem.Contents()), latch, job, mem.contended, job.units)
  {
    hide RegionOf, Load, Store, Latched, AlignDown, NextSource, NextDestination, MirroredOffset, OffsetIn, SourceAt, DestinationAt;
    var from, w := RegionOf(job.source).value, job.width;
    newLatch, source, destination, cycles := latch, job.source, job.destination, 0;
    for k := 0 to job.units
      invariant Moved(mem.Contents(), newLatch, source, destination, cycles)
             == VramUnits(old(mem.Contents()), latch, job, mem.contended, k)
    {
      OffsetsWithin(from, source, destination);
      var value := Memory.ReadArray(mem.Bytes(from), MirroredOffset(from, source), w);
      newLatch := Latched(value, w);
      Memory.WriteArray(mem.vram, OffsetIn(Vram, destination), value, w);
      cycles := cycles + Cycles(from, w, mem.contended) + VramCycles(w, mem.contended);
      source, destination := NextSource(job, source), NextDestination(job, destination);
    }
  }

  lemma OffsetsWithin(from: Region, source: u32, destination: u32)
    ensures MirroredOffset(from, source) < Capacity(from) && OffsetIn(Vram, destination) < Capacity(Vram)
  {
  }

  /** The general loop, over the bus. */
  method BusLoop(mem: Memory, job: Job, latch: u32) returns (newLatch: u32, source: u32, destination: u32, cycles: nat)
    requires mem.Valid() && InRam(job, job.units)
    modifies mem.ewram, mem.iwram, mem.vram
    ensures Moved(mem.Contents(), newLatch, source, destination, cycles)
         == Units(old(mem.Contents()), latch, job, mem.contended, job.units)
  {
    hide RegionOf, Load, Store, Latched, Place, NextSource, NextDestination, SourceAt, DestinationAt, Of, With;
    var w := job.width;
    newLatch, source, destination, cycles := latch, job.source, job.destination, 0;
    for k := 0 to job.units
      invariant Moved(mem.Contents(), newLatch, source, destination, cycles)
             == Units(old(mem.Contents()), latch, job, mem.contended, k)
    {
      assert Readable(SourceAt(job, k));
      var value, readCycles := LatchSupplies(newLatch, destination, w), 1;
      if source >= 0x200_0000 {
        value, readCycles := mem.Read(source, w);
        newLatch := Latched(value, w);
      }
      var writeCycles := mem.Write(destination, value, w);
      cycles := cycles + readCycles + writeCycles;
      source, destination := NextSource(job, source), NextDestination(job, destination);
    }
  }

  lemma BurstIsNotToVram(job: Job)
    requires Burst(job)
    ensures !RamToVram(job)
  {
  }

  /** Whether the transfer means what moving unit by unit means: always, but for a RAM-to-VRAM source that leaves its region. */
  ghost predicate MeansUnitByUnit(job: Job) {
    !RamToVram(job) || StaysInRegion(job)
  }

  /** service_due's choice of loop. */
  method Transfer(mem: Memory, job: Job, latch: u32) returns (newLatch: u32, source: u32, destination: u32, cycles: nat)
    requires mem.Valid() && 0 < job.units <= 0x1_0000
    requires Aligned(job.source, job.width) && Aligned(job.destination, job.width)
    requires InRam(job, job.units)
    modifies mem.ewram, mem.iwram, mem.vram
    ensures MeansUnitByUnit(job) ==>
      Moved(mem.Contents(), newLatch, source, destination, cycles)
        == Units(old(mem.Contents()), latch, job, mem.contended, job.units)
    ensures !MeansUnitByUnit(job) ==>
      Moved(mem.Contents(), newLatch, source, destination, cycles)
        == VramUnits(old(mem.Contents()), latch, job, mem.contended, job.units)
  {
    hide Units, VramUnits, BulkCopied, Aligned, InRam, StaysInRegion, RegionOf, Offset, Capacity, Of;
    ghost var m := mem.Contents();
    if Burst(job) {
      BurstIsNotToVram(job);
      BurstIsUnitByUnit(m, latch, job, mem.contended);
      newLatch, source, destination, cycles := BulkCopy(mem, job);
    } else if RamToVram(job) {
      if StaysInRegion(job) {
        VramLoopIsUnitByUnit(m, latch, job, mem.contended, job.units);
      }
      newLatch, source, destination, cycles := VramLoop(mem, job, latch);
    } else {
      newLatch, source, destination, cycles := BusLoop(mem, job, latch);
    }
  }
}
