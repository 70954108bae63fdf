/**
 The data movement of one DMA transfer (service_due in src/core/dma.cpp): the loop that moves unit by unit
 over the bus, and the two shortcuts that must mean the same, a bulk copy from RAM to RAM and a loop from
 RAM to VRAM that skips the bus.
 */
module DmaCopy {
  import opened Basics
  import RomBytes
  import opened RamBus

  /** One channel's transfer as service_due sets it up: aligned addresses, and the two address modes. */
  datatype Job = Job(source: u32, destination: u32, units: nat, width: Width, srcMode: nat, dstMode: nat, fifo: bool)

  /** How far a transfer has got: memory, the channel's bus latch, the next addresses, and the cycles spent. */
  datatype Moved = Moved(ram: Ram, latch: u32, source: u32, destination: u32, cycles: nat)

  function Step(address: u32, bytes: nat, up: bool, down: bool): u32 {
    if up then (address + bytes) % WORD_RANGE else if down then (address - bytes) % WORD_RANGE else address
  }

  function NextSource(job: Job, address: u32): u32 {
    Step(address, Size(job.width), job.srcMode == 0, job.srcMode == 1)
  }

  function NextDestination(job: Job, address: u32): u32 {
    if job.fifo then address
    else Step(address, Size(job.width), job.dstMode == 0 || job.dstMode == 3, job.dstMode == 1)
  }

  function SourceAt(job: Job, k: nat): u32 {
    if k == 0 then job.source else NextSource(job, SourceAt(job, k - 1))
  }

  function DestinationAt(job: Job, k: nat): u32 {
    if k == 0 then job.destination else NextDestination(job, DestinationAt(job, k - 1))
  }

  /** Below 0x02000000 nothing is read; the latch supplies the value. */
  predicate Readable(source: u32) { source < 0x200_0000 || RegionOf(source).Some? }

  /** The first n units meet only the memories modelled here. */
  ghost predicate InRam(job: Job, n: nat) {
    forall k | 0 <= k < n :: Readable(SourceAt(job, k)) && RegionOf(DestinationAt(job, k)).Some?
  }

  /** The latch holds a half-word twice. */
  function Latched(value: u32, w: Width): u32 {
    if w == Half then value % 0x1_0000 * 0x1_0000 + value % 0x1_0000 else value
  }

  function LatchSupplies(latch: u32, destination: u32, w: Width): u32 {
    if w == Half && destination % 4 >= 2 then latch / 0x1_0000 else latch
  }

  /** What reading a unit from this address costs; the latch supplies one in a cycle. */
  function ReadCycles(source: u32, w: Width, contended: bool): nat
    requires Readable(source)
  {
    if source >= 0x200_0000 then Cycles(RegionOf(source).value, w, contended) else 1
  }

  /** One turn of the general loop. */
  function Unit(x: Moved, job: Job, contended: bool): (r: Moved)
    requires WellSized(x.ram) && Readable(x.source) && RegionOf(x.destination).Some?
    ensures WellSized(r.ram)
  {
    var w, into := job.width, RegionOf(x.destination).value;
    var fromBus := x.source >= 0x200_0000;
    var value := if fromBus then BusLoad(x.ram, x.source, w) else LatchSupplies(x.latch, x.destination, w);
    var readCycles := ReadCycles(x.source, w, contended);
    Moved(BusStore(x.ram, x.destination, value, w), if fromBus then Latched(value, w) else x.latch,
          NextSource(job, x.source), NextDestination(job, x.destination),
          x.cycles + readCycles + Cycles(into, w, contended))
  }

  function BusLoad(m: Ram, address: u32, w: Width): u32
    requires WellSized(m) && RegionOf(address).Some?
  {
    var r := RegionOf(address).value;
    Load(Of(m, r), Place(r, address, w), w)
  }

  function BusStore(m: Ram, address: u32, value: u32, w: Width): (r: Ram)
    requires WellSized(m) && RegionOf(address).Some?
    ensures WellSized(r)
  {
    var r := RegionOf(address).value;
    With(m, r, Store(Of(m, r), Place(r, address, w), value, w))
  }

  /** The cycles of n units. */
  function BusCycles(job: Job, contended: bool, n: nat): nat
    requires InRam(job, n)
  {
    if n == 0 then 0
    else
      BusCycles(job, contended, n - 1) + ReadCycles(SourceAt(job, n - 1), job.width, contended)
      + Cycles(RegionOf(DestinationAt(job, n - 1)).value, job.width, contended)
  }

  /** Unit-by-unit transfer: the meaning of a DMA job. */
  function Units(m: Ram, latch: u32, job: Job, contended: bool, n: nat): (r: Moved)
    requires WellSized(m) && InRam(job, n)
    ensures WellSized(r.ram) && r.source == SourceAt(job, n) && r.destination == DestinationAt(job, n)
    ensures r.cycles == BusCycles(job, contended, n)
  {
    if n == 0 then Moved(m, latch, job.source, job.destination, 0)
    else Unit(Units(m, latch, job, contended, n - 1), job, contended)
  }

  // ----- When the shortcuts apply -----

  predicate Aligned(address: u32, w: Width) { AlignDown(address, w) == address }

  predicate Plain(job: Job) { !job.fifo && job.srcMode == 0 && job.dstMode == 0 }

  function Base(r: Region): u32 {
    match r case Ewram => 0x200_0000 case Iwram => 0x300_0000 case Vram => 0x600_0000
  }

  predicate WorkRam(address: u32) { RegionOf(address) == Some(Ewram) || RegionOf(address) == Some(Iwram) }

  predicate VramWindow(address: u32) { 0x600_0000 <= address < 0x601_8000 }

  predicate RamToVram(job: Job) { Plain(job) && WorkRam(job.source) && VramWindow(job.destination) }

  /** The bytes that k units span. */
  function Span(w: Width, k: nat): nat { if w == Half then 2 * k else 4 * k }

  function Bytes(job: Job): nat { Span(job.width, job.units) }

  /** Offset from the start of the region, without mirroring. */
  function Offset(address: u32): u32
    requires WorkRam(address)
  {
    (address - Base(RegionOf(address).value)) % WORD_RANGE
  }

  /** The bulk copy is used when both ranges fit their memory and do not overlap. */
  predicate Burst(job: Job) {
    && Plain(job) && WorkRam(job.source) && WorkRam(job.destination)
    && var from, into := RegionOf(job.source).value, RegionOf(job.destination).value;
       var s, d := Offset(job.source), Offset(job.destination);
       && s + Bytes(job) <= Capacity(from) && d + Bytes(job) <= Capacity(into)
       && (from != into || s + Bytes(job) <= d || d + Bytes(job) <= s)
  }

  // ----- The bulk copy -----

  /** `dst` with n bytes of `src` from s on written from d on. */
  function Patched(dst: seq<u8>, d: nat, src: seq<u8>, s: nat, n: nat): (r: seq<u8>)
    requires d + n <= |dst| && s + n <= |src|
    ensures |r| == |dst|
  {
    if n == 0 then dst else Patched(dst, d, src, s, n - 1)[d + n - 1 := src[s + n - 1]]
  }

  lemma {:induction false} PatchedOutside(dst: seq<u8>, d: nat, src: seq<u8>, s: nat, n: nat, k: nat)
    requires d + n <= |dst| && s + n <= |src| && k < |dst| && !(d <= k < d + n)
    ensures Patched(dst, d, src, s, n)[k] == dst[k]
  {
    if n > 0 {
      PatchedOutside(dst, d, src, s, n - 1, k);
    }
  }

  /** Storing what was loaded copies the bytes. */
  lemma StoreOfLoad(dst: seq<u8>, d: nat, src: seq<u8>, s: nat, w: Width)
    requires 4 <= |src| && 4 <= |dst| && d + Size(w) <= |dst| && s + Size(w) <= |src|
    ensures w == Half ==> Store(dst, d, Load(src, s, w), w) == dst[d := src[s]][d + 1 := src[s + 1]]
    ensures w == Word ==>
      Store(dst, d, Load(src, s, w), w)
        == dst[d := src[s]][d + 1 := src[s + 1]][d + 2 := src[s + 2]][d + 3 := src[s + 3]]
  {
    hide Byte0, Byte1, Byte2, Byte3, RomBytes.Half, RomBytes.Word;
    if w == Half {
      JoinedHalfBytes(src[s], src[s + 1]);
    } else {
      JoinedBytes(src[s], src[s + 1], src[s + 2], src[s + 3]);
    }
  }

  lemma PatchMore(dst: seq<u8>, d: nat, src: seq<u8>, s: nat, n: nat, w: Width)
    requires 4 <= |src| && 4 <= |dst| && d + n + Size(w) <= |dst| && s + n + Size(w) <= |src|
    ensures Store(Patched(dst, d, src, s, n), d + n, Load(src, s + n, w), w) == Patched(dst, d, src, s, n + Size(w))
  {
    hide Store, Load;
    StoreOfLoad(Patched(dst, d, src, s, n), d + n, src, s + n, w);
    assert Patched(dst, d, src, s, n + 2)
        == Patched(dst, d, src, s, n + 1)[d + n + 1 := src[s + n + 1]];
    if w == Word {
      assert Patched(dst, d, src, s, n + 3)
          == Patched(dst, d, src, s, n + 2)[d + n + 2 := src[s + n + 2]];
    }
  }

  /** Loads from outside the written range are unchanged. */
  lemma LoadUnpatched(dst: seq<u8>, d: nat, src: seq<u8>, s: nat, n: nat, at: nat, w: Width)
    requires 4 <= |dst| && d + n <= |dst| && s + n <= |src|
    requires at + Size(w) <= |dst| && (at + Size(w) <= d || d + n <= at)
    ensures Load(Patched(dst, d, src, s, n), at, w) == Load(dst, at, w)
  {
    hide Patched, RomBytes.Half, RomBytes.Word;
    PatchedOutside(dst, d, src, s, n, at);
    PatchedOutside(dst, d, src, s, n, at + 1);
    if w == Word {
      PatchedOutside(dst, d, src, s, n, at + 2);
      PatchedOutside(dst, d, src, s, n, at + 3);
    }
  }

  /** Memory, latch, addresses and cycles after the bulk copy. */
  function BulkCopied(m: Ram, job: Job, contended: bool): (r: Moved)
    requires WellSized(m) && Burst(job) && job.units > 0
  {
    hide RegionOf, Offset, Load, Patched, Cycles;
    var from, into := RegionOf(job.source).value, RegionOf(job.destination).value;
    var s, d, w, n := Offset(job.source), Offset(job.destination), job.width, Bytes(job);
    var after := With(m, into, Patched(Of(m, into), d, Of(m, from), s, n));
    Moved(after, Latched(Load(Of(after, from), s + n - Size(w), w), w),
          (job.source + n) % WORD_RANGE, (job.destination + n) % WORD_RANGE,
          job.units * (Cycles(from, w, contended) + Cycles(into, w, contended)))
  }

  lemma PlainStep(job: Job, address: u32)
    requires Plain(job) && address + Size(job.width) < WORD_RANGE
    ensures NextSource(job, address) == address + Size(job.width) == NextDestination(job, address)
  {
  }

  lemma {:induction false} PlainSource(job: Job, k: nat)
    requires Plain(job) && job.source + Span(job.width, k) < WORD_RANGE
    ensures SourceAt(job, k) == job.source + Span(job.width, k)
  {
    hide NextSource, NextDestination;
    if k > 0 {
      PlainSource(job, k - 1);
      PlainStep(job, SourceAt(job, k - 1));
    }
  }

  lemma {:induction false} PlainDestination(job: Job, k: nat)
    requires Plain(job) && job.destination + Span(job.width, k) < WORD_RANGE
    ensures DestinationAt(job, k) == job.destination + Span(job.width, k)
  {
    hide NextSource, NextDestination;
    if k > 0 {
      PlainDestination(job, k - 1);
      PlainStep(job, DestinationAt(job, k - 1));
    }
  }

  /** Within its memory, an address moves on without mirroring. */
  lemma PlaceMovesOn(address: u32, w: Width, n: nat)
    requires WorkRam(address) && Aligned(address, w)
    requires Offset(address) + Span(w, n) < Capacity(RegionOf(address).value)
    ensures address + Span(w, n) < WORD_RANGE
    ensures RegionOf(address + Span(w, n)) == RegionOf(address)
    ensures address + Span(w, n) >= 0x200_0000
    ensures Place(RegionOf(address).value, address + Span(w, n), w) == Offset(address) + Span(w, n)
  {
    var r := RegionOf(address).value;
    assert address == Base(r) + Offset(address);
    PlaceInOrder(r, Offset(address) + Span(w, n), w);
    AlignedSum(address, Offset(address), w, n);
  }

  lemma PlaceInOrder(r: Region, offset: nat, w: Width)
    requires r != Vram && offset < Capacity(r)
    ensures Base(r) + offset < WORD_RANGE && RegionOf(Base(r) + offset) == Some(r)
    ensures OffsetIn(r, Base(r) + offset) == offset
  {
  }

  lemma AlignedBy(offset: nat, w: Width, quotient: int)
    requires offset == if w == Half then 2 * quotient else 4 * quotient
    ensures AlignDown(offset, w) == offset
  {
    if w == Half {
      assert offset / 2 == quotient;
    } else {
      assert offset / 4 == quotient;
    }
  }

  lemma AlignedSum(address: u32, offset: nat, w: Width, n: nat)
    requires Aligned(address, w) && (address == 0x200_0000 + offset || address == 0x300_0000 + offset)
    ensures AlignDown(offset + Span(w, n), w) == offset + Span(w, n)
  {
    var base := address - offset;
    AlignedBy(offset + Span(w, n), w, if w == Half then address / 2 - base / 2 + n else address / 4 - base / 4 + n);
  }

  /** Every unit of a bulk copy lies in RAM. */
  lemma BurstPlaces(job: Job, k: nat)
    requires Burst(job) && Aligned(job.source, job.width) && Aligned(job.destination, job.width) && k < job.units
    ensures var from, into, w := RegionOf(job.source).value, RegionOf(job.destination).value, job.width;
      && RegionOf(SourceAt(job, k)) == Some(from) && SourceAt(job, k) >= 0x200_0000
      && RegionOf(DestinationAt(job, k)) == Some(into)
      && Place(from, SourceAt(job, k), w) == Offset(job.source) + Span(w, k)
      && Place(into, DestinationAt(job, k), w) == Offset(job.destination) + Span(w, k)
  {
    hide RegionOf, Place, Offset, AlignDown;
    PlaceMovesOn(job.source, job.width, k);
    PlaceMovesOn(job.destination, job.width, k);
    PlainSource(job, k);
    PlainDestination(job, k);
  }

  lemma BurstInRam(job: Job, n: nat)
    requires Burst(job) && Aligned(job.source, job.width) && Aligned(job.destination, job.width) && n <= job.units
    ensures InRam(job, n)
  {
    hide Burst, Place, RegionOf, SourceAt, DestinationAt;
    forall k | 0 <= k < n
      ensures Readable(SourceAt(job, k)) && RegionOf(DestinationAt(job, k)).Some?
    {
      BurstPlaces(job, k);
    }
  }

  lemma OfWith(m: Ram, r: Region, q: Region, bytes: seq<u8>, other: seq<u8>)
    ensures Of(With(m, r, bytes), q) == if q == r then bytes else Of(m, q)
    ensures With(With(m, r, bytes), r, other) == With(m, r, other)
  {
  }

  /** A unit that goes from memory to memory. */
  lemma UnitCopies(x: Moved, job: Job, contended: bool, from: Region, into: Region)
    requires WellSized(x.ram) && x.source >= 0x200_0000
    requires RegionOf(x.source) == Some(from) && RegionOf(x.destination) == Some(into)
    ensures var w := job.width;
      var value := Load(Of(x.ram, from), Place(from, x.source, w), w);
      && Unit(x, job, contended).ram
           == With(x.ram, into, Store(Of(x.ram, into), Place(into, x.destination, w), value, w))
      && Unit(x, job, contended).latch == Latched(value, w)
      && Unit(x, job, contended).cycles == x.cycles + Cycles(from, w, contended) + Cycles(into, w, contended)
  {
    hide RegionOf, Place, Load, Store, Latched, Cycles, NextSource, NextDestination;
  }

  lemma OneMore(k: nat, c: nat)
    requires k > 0
    ensures (k - 1) * c + c == k * c
  {
  }

  lemma OfSized(m: Ram, r: Region)
    requires WellSized(m)
    ensures |Of(m, r)| == Capacity(r) >= 4
  {
  }

  /** After k units of the general loop, the first Span(k) bytes have been copied. */
  lemma {:induction false} BurstProgress(m: Ram, latch: u32, job: Job, contended: bool, k: nat)
    requires WellSized(m) && Burst(job) && Aligned(job.source, job.width) && Aligned(job.destination, job.width)
    requires k <= job.units && InRam(job, k)
    ensures var from, into, w := RegionOf(job.source).value, RegionOf(job.destination).value, job.width;
      var s, d := Offset(job.source), Offset(job.destination);
      var x := Units(m, latch, job, contended, k);
      && x.ram == With(m, into, Patched(Of(m, into), d, Of(m, from), s, Span(w, k)))
      && x.cycles == k * (Cycles(from, w, contended) + Cycles(into, w, contended))
      && (k > 0 ==> x.latch == Latched(Load(Of(m, from), s + Span(w, k - 1), w), w))
  {
    hide Unit, Of, With, RegionOf, Place, Load, Store, Latched, Cycles, SourceAt, DestinationAt, AlignDown, Offset, Patched, WellSized, Capacity;
    var from, into, w := RegionOf(job.source).value, RegionOf(job.destination).value, job.width;
    var s, d := Offset(job.source), Offset(job.destination);
    OfSized(m, from);
    OfSized(m, into);
    if k == 0 {
      NothingMoved(m, into, Of(m, into), d, Of(m, from), s);
    } else {
      var n := Span(w, k - 1);
      var x := Units(m, latch, job, contended, k - 1);
      var done := Patched(Of(m, into), d, Of(m, from), s, n);
      BurstProgress(m, latch, job, contended, k - 1);
      BurstPlaces(job, k - 1);
      UnitCopies(x, job, contended, from, into);
      OneMore(k, Cycles(from, w, contended) + Cycles(into, w, contended));
      OfWith(m, into, from, done, []);
      OfWith(m, into, into, done, Store(done, d + n, Load(Of(m, from), s + n, w), w));
      if from == into {
        LoadUnpatched(Of(m, into), d, Of(m, from), s, n, s + n, w);
      }
      PatchMore(Of(m, into), d, Of(m, from), s, n, w);
    }
  }

  lemma NothingMoved(m: Ram, r: Region, dst: seq<u8>, d: nat, src: seq<u8>, s: nat)
    requires dst == Of(m, r) && d <= |dst| && s <= |src|
    ensures With(m, r, Patched(dst, d, src, s, 0)) == m
  {
  }

  /** Both ranges of a bulk copy fit their memories, and do not overlap. */
  lemma BurstFits(m: Ram, job: Job)
    requires WellSized(m) && Burst(job) && job.units > 0
    ensures var from, into := RegionOf(job.source).value, RegionOf(job.destination).value;
      var s, d, n := Offset(job.source), Offset(job.destination), Bytes(job);
      && s + n <= |Of(m, from)| && d + n <= |Of(m, into)| && 4 <= |Of(m, from)| && 4 <= |Of(m, into)|
      && n == Span(job.width, job.units - 1) + Size(job.width)
      && (from == into ==> s + n <= d || d + n <= s)
  {
    hide RegionOf, Offset;
    OfSized(m, RegionOf(job.source).value);
    OfSized(m, RegionOf(job.destination).value);
  }

  /** The bulk copy leaves memory, latch, addresses and cycles exactly as moving unit by unit does. */
  lemma BurstIsUnitByUnit(m: Ram, latch: u32, job: Job, contended: bool)
    requires WellSized(m) && Burst(job) && job.units > 0
    requires Aligned(job.source, job.width) && Aligned(job.destination, job.width)
    ensures InRam(job, job.units)
    ensures BulkCopied(m, job, contended) == Units(m, latch, job, contended, job.units)
  {
    hide Units, Of, With, RegionOf, Load, Latched, Cycles, SourceAt, DestinationAt, Aligned, AlignDown, Offset, Patched,
         WellSized, Capacity, InRam, Span;
    var from, into, w := RegionOf(job.source).value, RegionOf(job.destination).value, job.width;
    var s, d, n := Offset(job.source), Offset(job.destination), Bytes(job);
    BurstFits(m, job);
    BurstInRam(job, job.units);
    BurstProgress(m, latch, job, contended, job.units);
    OfWith(m, into, from, Patched(Of(m, into), d, Of(m, from), s, n), []);
    if from == into {
      LoadUnpatched(Of(m, into), d, Of(m, from), s, n, s + n - Size(w), w);
    }
    BurstEnds(job);
  }

  lemma BurstEnds(job: Job)
    requires Burst(job) && job.units > 0
    ensures SourceAt(job, job.units) == (job.source + Bytes(job)) % WORD_RANGE
    ensures DestinationAt(job, job.units) == (job.destination + Bytes(job)) % WORD_RANGE
  {
    hide SourceAt, DestinationAt;
    OffsetsBound(job.source);
    OffsetsBound(job.destination);
    PlainSource(job, job.units);
    PlainDestination(job, job.units);
  }

  lemma OffsetsBound(address: u32)
    requires WorkRam(address)
    ensures Offset(address) <= 0x4_0000 ==> address <= 0x304_0000
  {
  }

  // ----- The RAM-to-VRAM loop -----

  /** read_raw_memory's offset: mirrored within the memory the transfer started in. */
  function MirroredOffset(r: Region, address: u32): nat {
    var offset := (address - Base(r)) % WORD_RANGE;
    match r case Ewram => offset % 0x4_0000 case Iwram => offset % 0x8000 case Vram => offset % 0x1_8000
  }

  lemma MirroredOffsetIsBusOffset(r: Region, address: u32)
    requires r != Vram
    ensures MirroredOffset(r, address) == OffsetIn(r, address)
  {
    var offset := (address - Base(r)) % WORD_RANGE;
    assert offset == address - Base(r) || offset == address - Base(r) + WORD_RANGE;
  }

  /** One turn of the RAM-to-VRAM loop; `from` is the region the transfer started in. */
  function VramUnit(x: Moved, job: Job, from: Region, contended: bool): (r: Moved)
    requires WellSized(x.ram) && from != Vram
    ensures WellSized(r.ram)
  {
    var w := job.width;
    var value := Load(Of(x.ram, from), AlignDown(MirroredOffset(from, x.source), w), w);
    Moved(With(x.ram, Vram, Store(x.ram.vram, AlignDown(OffsetIn(Vram, x.destination), w), value, w)),
          Latched(value, w), NextSource(job, x.source), NextDestination(job, x.destination),
          x.cycles + Cycles(from, w, contended) + VramCycles(w, contended))
  }

  /** The cycles that the loop charges for a unit. */
  function LoopCycles(job: Job, contended: bool): nat
    requires WorkRam(job.source)
  {
    Cycles(RegionOf(job.source).value, job.width, contended) + VramCycles(job.width, contended)
  }

  function VramUnits(m: Ram, latch: u32, job: Job, contended: bool, n: nat): (r: Moved)
    requires WellSized(m) && WorkRam(job.source)
    ensures WellSized(r.ram) && r.source == SourceAt(job, n) && r.destination == DestinationAt(job, n)
    ensures r.cycles == n * LoopCycles(job, contended)
  {
    if n == 0 then Moved(m, latch, job.source, job.destination, 0)
    else VramUnit(VramUnits(m, latch, job, contended, n - 1), job, RegionOf(job.source).value, contended)
  }

  /** The source does not run past the end of its 16 MiB region. */
  predicate StaysInRegion(job: Job) { job.source % 0x100_0000 + Bytes(job) <= 0x100_0000 }

  lemma RegionAfter(address: u32, n: nat)
    requires WorkRam(address) && n <= 0x4_0000
    ensures address + n < WORD_RANGE
    ensures address % 0x100_0000 + n < 0x100_0000 ==> RegionOf(address + n) == RegionOf(address)
    ensures address % 0x100_0000 + n >= 0x100_0000 ==>
      RegionOf(address + n) == if RegionOf(address) == Some(Ewram) then Some(Iwram) else None
    ensures address + n >= 0x200_0000
  {
  }

  lemma VramWindowAfter(address: u32, n: nat)
    requires VramWindow(address) && n <= 0x4_0000
    ensures RegionOf(address + n) == Some(Vram)
  {
  }

  lemma AlignedRegion(address: u32, w: Width, n: nat)
    requires Aligned(address, w)
    ensures AlignDown(address % 0x100_0000 + Span(w, n), w) == address % 0x100_0000 + Span(w, n)
  {
    var region := address / 0x100_0000;
    AlignedBy(address % 0x100_0000 + Span(w, n), w,
              if w == Half then address / 2 - region * 0x80_0000 + n else address / 4 - region * 0x40_0000 + n);
  }

  /** Where each unit of a RAM-to-VRAM transfer reads and writes. */
  lemma VramPlaces(job: Job, k: nat)
    requires RamToVram(job) && k < job.units <= 0x1_0000
    ensures SourceAt(job, k) == job.source + Span(job.width, k) >= 0x200_0000
    ensures RegionOf(DestinationAt(job, k)) == Some(Vram)
    ensures job.source % 0x100_0000 + Span(job.width, k) < 0x100_0000 ==> RegionOf(SourceAt(job, k)) == RegionOf(job.source)
    ensures job.source % 0x100_0000 + Span(job.width, k) >= 0x100_0000 ==>
      RegionOf(SourceAt(job, k)) == if RegionOf(job.source) == Some(Ewram) then Some(Iwram) else None
  {
    hide RegionOf;
    RegionAfter(job.source, Span(job.width, k));
    VramWindowAfter(job.destination, Span(job.width, k));
    PlainSource(job, k);
    PlainDestination(job, k);
  }

  /** A caller can tell beforehand whether every unit is read from the region of the first. */
  lemma StaysInRegionIffEveryUnitDoes(job: Job)
    requires RamToVram(job) && 0 < job.units <= 0x1_0000 && Aligned(job.source, job.width)
    ensures StaysInRegion(job) <==> forall k | 0 <= k < job.units :: RegionOf(SourceAt(job, k)) == RegionOf(job.source)
  {
    hide RegionOf;
    forall k | 0 <= k < job.units && StaysInRegion(job)
      ensures RegionOf(SourceAt(job, k)) == RegionOf(job.source)
    {
      VramPlaces(job, k);
    }
    if !StaysInRegion(job) {
      LastUnitLeaves(job);
    }
  }

  lemma LastUnitLeaves(job: Job)
    requires RamToVram(job) && 0 < job.units <= 0x1_0000 && Aligned(job.source, job.width) && !StaysInRegion(job)
    ensures RegionOf(SourceAt(job, job.units - 1)) != RegionOf(job.source)
  {
    hide RegionOf, SourceAt, DestinationAt;
    VramPlaces(job, job.units - 1);
    AlignedRegion(job.source, job.width, job.units);
  }

  lemma VramInRam(job: Job, n: nat)
    requires RamToVram(job) && n <= job.units <= 0x1_0000
    requires RegionOf(job.source) == Some(Ewram) || StaysInRegion(job)
    ensures InRam(job, n)
  {
    hide RegionOf, SourceAt, DestinationAt;
    forall k | 0 <= k < n
      ensures Readable(SourceAt(job, k)) && RegionOf(DestinationAt(job, k)).Some?
    {
      VramPlaces(job, k);
    }
  }

  /** One turn of each loop does the same while the source is in the region it started in. */
  lemma VramUnitIsUnit(x: Moved, job: Job, from: Region, contended: bool)
    requires WellSized(x.ram) && from != Vram && x.source >= 0x200_0000
    requires RegionOf(x.source) == Some(from) && RegionOf(x.destination) == Some(Vram)
    requires MirroredOffset(from, x.source) == OffsetIn(from, x.source)
    ensures VramUnit(x, job, from, contended) == Unit(x, job, contended)
  {
    hide RegionOf, Load, Store, Latched, OffsetIn, AlignDown, NextSource, NextDestination, MirroredOffset;
  }

  /** Skipping the bus is invisible when the source stays in its region. */
  lemma {:induction false} VramLoopIsUnitByUnit(m: Ram, latch: u32, job: Job, contended: bool, n: nat)
    requires WellSized(m) && RamToVram(job) && n <= job.units <= 0x1_0000 && StaysInRegion(job)
    ensures InRam(job, n) && VramUnits(m, latch, job, contended, n) == Units(m, latch, job, contended, n)
  {
    hide RegionOf, Unit, VramUnit, SourceAt, DestinationAt;
    VramInRam(job, n);
    if n > 0 {
      VramLoopIsUnitByUnit(m, latch, job, contended, n - 1);
      VramPlaces(job, n - 1);
      MirroredOffsetIsBusOffset(RegionOf(job.source).value, SourceAt(job, n - 1));
      VramUnitIsUnit(Units(m, latch, job, contended, n - 1), job, RegionOf(job.source).value, contended);
    }
  }

  /** From EWRAM the shortcut never charges less, and charges more once a unit comes from IWRAM. */
  lemma {:induction false} VramLoopCycles(job: Job, contended: bool, n: nat)
    requires RamToVram(job) && RegionOf(job.source) == Some(Ewram) && n <= job.units <= 0x1_0000 && InRam(job, n)
    ensures n * LoopCycles(job, contended) >= BusCycles(job, contended, n)
    ensures n > 0 && RegionOf(SourceAt(job, n - 1)) != Some(Ewram) ==>
      n * LoopCycles(job, contended) > BusCycles(job, contended, n)
  {
    hide RegionOf, SourceAt, DestinationAt, InRam;
    if n > 0 {
      InRamBefore(job, n);
      VramLoopCycles(job, contended, n - 1);
      VramPlaces(job, n - 1);
      assert n * LoopCycles(job, contended) == (n - 1) * LoopCycles(job, contended) + LoopCycles(job, contended);
    }
  }

  lemma InRamBefore(job: Job, n: nat)
    requires n > 0 && InRam(job, n)
    ensures InRam(job, n - 1) && Readable(SourceAt(job, n - 1)) && RegionOf(DestinationAt(job, n - 1)).Some?
  {
    hide RegionOf, SourceAt, DestinationAt;
  }

  lemma IwramStays(job: Job)
    requires RamToVram(job) && 0 < job.units <= 0x1_0000 && Aligned(job.source, job.width)
    requires RegionOf(job.source) == Some(Iwram) && InRam(job, job.units)
    ensures StaysInRegion(job)
  {
    hide SourceAt, DestinationAt;
    VramPlaces(job, job.units - 1);
    AlignedRegion(job.source, job.width, job.units);
    assert Readable(SourceAt(job, job.units - 1));
  }

  /**
   The shortcut means the same exactly when the source stays in its region: past the end of EWRAM's the bus
   reads IWRAM, which is other memory and faster, while the shortcut goes on reading mirrored EWRAM.
   */
  lemma VramLoopExactIffStaysInRegion(m: Ram, latch: u32, job: Job, contended: bool)
    requires WellSized(m) && RamToVram(job) && InRam(job, job.units)
    requires 0 < job.units <= 0x1_0000 && Aligned(job.source, job.width)
    ensures VramUnits(m, latch, job, contended, job.units) == Units(m, latch, job, contended, job.units)
       <==> StaysInRegion(job)
  {
    hide RegionOf, SourceAt, DestinationAt, VramUnits, Units, InRam, Aligned, StaysInRegion;
    if StaysInRegion(job) {
      VramLoopIsUnitByUnit(m, latch, job, contended, job.units);
    } else if RegionOf(job.source) == Some(Iwram) {
      IwramStays(job);
    } else {
      LastUnitLeaves(job);
      VramLoopCycles(job, contended, job.units);
    }
  }

  /** A transfer of two words, the second of them beyond the end of EWRAM's region. */
  predicate Overruns(job: Job) {
    job == Job(0x2FF_FFFC, 0x600_0000, 2, Word, 0, 0, false)
  }

  lemma OverrunPlaces(job: Job)
    requires Overruns(job)
    ensures RamToVram(job) && !StaysInRegion(job) && Aligned(job.source, Word) && InRam(job, job.units)
  {
    assert SourceAt(job, 1) == NextSource(job, SourceAt(job, 0));
    assert DestinationAt(job, 1) == NextDestination(job, DestinationAt(job, 0));
  }

  /** Both loops copy the last word of EWRAM's region first. */
  lemma OverrunFirst(x: Moved, job: Job)
    requires WellSized(x.ram) && Overruns(job) && x.source == job.source && x.destination == job.destination
    ensures Readable(x.source) && RegionOf(x.destination) == Some(Vram)
    ensures var fast := VramUnit(x, job, Ewram, false);
      fast.ram.ewram == x.ram.ewram && fast.source == 0x300_0000 && fast.destination == 0x600_0004 && fast.cycles == x.cycles + 8
    ensures var slow := Unit(x, job, false);
      slow.ram.iwram == x.ram.iwram && slow.source == 0x300_0000 && slow.destination == 0x600_0004 && slow.cycles == x.cycles + 8
  {
    hide Load, Store, Latched, Place, AlignDown, MirroredOffset, OffsetIn;
  }

  /** Then the shortcut reads the first word of EWRAM again, and the bus that of IWRAM. */
  lemma OverrunSecond(x: Moved, job: Job)
    requires WellSized(x.ram) && Overruns(job) && x.source == 0x300_0000 && x.destination == 0x600_0004
    ensures Readable(x.source) && RegionOf(x.destination) == Some(Vram)
    ensures var fast := VramUnit(x, job, Ewram, false);
      fast.ram.vram == Store(x.ram.vram, 4, Load(x.ram.ewram, 0, Word), Word) && fast.cycles == x.cycles + 8
    ensures var slow := Unit(x, job, false);
      slow.ram.vram == Store(x.ram.vram, 4, Load(x.ram.iwram, 0, Word), Word) && slow.cycles == x.cycles + 3
  {
    hide Load, Store, Latched;
    assert MirroredOffset(Ewram, x.source) == 0 && OffsetIn(Vram, x.destination) == 4;
    assert Place(Iwram, x.source, Word) == 0 && Place(Vram, x.destination, Word) == 4;
  }

  /** The shortcut puts the first word of EWRAM where the bus puts the first word of IWRAM, and takes five cycles more. */
  lemma OverrunDiffers(m: Ram, latch: u32, job: Job)
    requires WellSized(m) && Overruns(job)
    ensures RamToVram(job) && InRam(job, job.units)
    ensures var fast, slow := VramUnits(m, latch, job, false, job.units), Units(m, latch, job, false, job.units);
      && Load(fast.ram.vram, 4, Word) == Load(m.ewram, 0, Word)
      && Load(slow.ram.vram, 4, Word) == Load(m.iwram, 0, Word)
      && fast.cycles == 16 && slow.cycles == 11
  {
    OverrunPlaces(job);
    var start := Moved(m, latch, job.source, job.destination, 0);
    OverrunFirst(start, job);
    hide SourceAt, DestinationAt, Load, Store, InRam, Unit, VramUnit, Latched, RegionOf;
    var x, y := VramUnit(start, job, Ewram, false), Unit(start, job, false);
    OverrunSecond(x, job);
    OverrunSecond(y, job);
    assert VramUnits(m, latch, job, false, job.units - 1) == x by { assert VramUnits(m, latch, job, false, 0) == start; }
    assert Units(m, latch, job, false, job.units - 1) == y by { assert Units(m, latch, job, false, 0) == start; }
    LoadOfStore(x.ram.vram, 4, Load(m.ewram, 0, Word), Word);
    LoadOfStore(y.ram.vram, 4, Load(m.iwram, 0, Word), Word);
  }
}
