# Verified model of the GBA emulator core

A Dafny model of the stateful heart of a cycle-scheduled Game Boy Advance emulator, with proofs that its fast
structures mean the same as much simpler ones. Classes carry the fields and loops of the C++ code; each is proved
against functions on values, and the theorems are about those functions and about whole runs.

| modules | what they model |
|---|---|
| Timers, TimerReference, TimerLaws, TimerWrites, TimerRuns, TimerUnit | event-driven timers, refined to a machine clocked every cycle |
| Irq, Apu, Lcd, Scheduler, DmaEngine, DmaRounds, ServiceRounds, Emulator | the other event sources, the scheduler, the service loop and the run loop |
| EndlessService | a program under which the service loop never ends |
| RamBus, DmaCopy, DmaTransfer, DmaService | DMA transfers over RAM, unit by unit and by shortcut |
| RomBytes, DemandAccess, SdCachePages, SdCacheState, SdCacheRuns, SdCacheProvider | the paged SD-card ROM cache |
| MmapWindows, MmapProvider | the memory-mapped ROM windows with their lazily cleaned heap |
| Recency, MemoryProvider | the desktop provider's model of an LRU page cache |
| CpuBanks, CarryChain | register banks, exceptions and multi-word arithmetic of the ARM7TDMI |
| HleMemory, HleDecoders, HleLz77, HleCalls, IntegerSqrt | BIOS calls done in C++ |
| PingPong | the two tasks that share two frame buffers, as interleaved atomic steps |
| RomSearch, Flash, Debounce | chunked search, flash save commands, key debouncing |

Conventions. Cycle numbers and ages are unbounded naturals; "never" is the largest 64-bit value, and the timer
theorems hold up to cycle 2^62. Registers that wrap do so explicitly. A mask register is the set of its one bits.
A2.6 is that section of the ARM Architecture Reference Manual (ARM DDI 0100).
File, partition and card operations may fail at any time; what the rest of the machine does (the CPU, the bytes a
DMA transfer of the service loop moves) is an arbitrary parameter.

Where the code does not meet the expected property, a lemma gives the exact condition:

- The service loop ends whatever request lines fire exactly when nothing is due or all repeating DMA channels are on
  one line (`DmaRounds.ServiceEndsIffOneLine`; it speaks of arbitrary lines). With two lines it can go on for ever in
  the machine itself: two timers that overflow thirty cycles apart clock the two FIFOs, whose channels fill work RAM
  instead (`EndlessService.TwoFifosKeepBusy`, and `EndlessService.FromReset` from reset). Whether it does for a
  given machine is decided round by round (`Emulator.Machine.ServiceDueHardware`).
- A byte write to IF acknowledges what it names and nothing else exactly if no interrupt of the other byte is flagged
  (`Irq.ByteWriteIsExactIff`): it merges the byte with the flags that are set and clears them all
  (`Irq.ByteWriteLosesDma`).
- The RAM-to-VRAM DMA loop equals the bus loop exactly when the source stays in its 16 MiB region
  (`DmaCopy.VramLoopExactIffStaysInRegion`; `DmaCopy.OverrunDiffers` is a transfer that leaves it).
- The SD cache shows its readers the flat ROM exactly if it has four or more pages (`SdCacheRuns.AnyRomIsFlatIffFourSlots`
  over all ROMs; `SdCacheRuns.FlatIffFourSlots` for any one of more than three pages whose pages 0 and 1, and 1 and
  3, begin with different bytes): with fewer, the prefetches that follow a read can replace the page its pointer
  addresses (`SdCacheRuns.OneSlotMisreads`, `SdCacheRuns.TwoOrThreeSlotsMisread`).
- A window of the mmap provider whose mapping fails is lost for good, but for window 0, which is used again once
  every other window is lost (`MmapWindows.MissLoses` is exact for a call, `MmapProvider.MmapRomProvider.EnsureAll`
  speaks of runs); the handle bookkeeping stays exact.
- The return that A2.6 prescribes goes on at the right instruction exactly for a call raised once it is fetched, and
  for any other exception but a reset raised before pc has moved (`CpuBanks.LandsWhereProgramResumes`). The code
  raises undefined instructions, calls and interrupts only, the first two once fetched: the return from an
  undefined instruction skips the one after it. Data aborts, raised the same way, would do so too.
- An exception taken in the handler's own mode loses the SPSR that was there, and r14 unless it already held the
  return address (`CpuBanks.SameModeLosesLinkAndStatus`). So a nest of exceptions that starts outside its modes
  comes back to its program exactly when no mode is entered twice (`CpuBanks.NestReturnsIffModesDistinct`, `CpuBanks.NestRestoresIffModesDistinct`).
- A flash program sequence works from an idle chip; begun in another phase its own first byte may be programmed
  (`Flash.ProgramSequenceNeedsIdle`).
- A ROM search finds nothing that is not there, whatever pages cannot be read, exactly if the needle is free of 0xFF
  (`RomSearch.NothingInventedIff`).
- A frame whose drawing fails is acknowledged all the same and not drawn again (`PingPong.DrawnInOrder`).
- A byte written to RAM is read back except in the last 16 KiB of VRAM (`RamBus.ByteReadsBackIff`).

## Model

| member | source | states |
|---|---|---|
| Timers.ServiceDecreases | src/core/timers.cpp:299-407 | the event loop terminates: servicing the next event lowers (pending writes, total distance of due events below the limit) lexicographically |
| Timers.AdvanceTo | src/core/timers.cpp:299-407 | after advancing nothing is due by the limit any more, whatever the channels held |
| Timers.AdvanceIsIndependentOfBatching | src/core/timers.cpp:299-407 | advancing to t1 and then t2 gives the same channels and the same chronological overflow list as advancing to t2 at once |
| TimerReference.WrapsExactlyAtNextEvent | src/core/timers.cpp:71-92 | a counter plus its elapsed ticks passes 0xFFFF exactly when `started + (0x10000 - counter) << shift` is reached |
| TimerReference.StartIsShaped | src/core/timers.cpp:84-92 | starting a channel, in or out of phase, establishes next event = timestamp + distance to wrap-around |
| TimerReference.StopNeverOverflows | src/core/timers.cpp:94-101 | the overflow-on-stop path is never taken: a stop is only serviced before the wrap-around |
| TimerReference.ServiceIsShaped | src/core/timers.cpp:299-407 | every kind of event keeps that timing invariant of all four channels |
| TimerReference.AdvanceFromValid | src/core/timers.cpp:299-407 | advancing keeps the timing invariant and leaves no event due at the limit |
| TimerReference.EventMachineRefinesClockedMachine | src/core/timers.cpp:299-407 | the event-driven channels agree at every cycle with four counters clocked cycle by cycle, and report the same overflows at the same cycles |
| TimerReference.NextEventIsExact | src/core/timers.cpp:409-417 | next_event_cycle is later than now and is the earliest event of any channel |
| TimerLaws.TicksToOverflows | src/core/timers.cpp:441-479 | n ticks of a counter overflow it first when it passes 0xFFFF and then every 0x10000 - R ticks, leave it where that says, and tick each cascaded timer once per overflow; the counter may start below its reload value R |
| TimerLaws.ElapsedCyclesAreTicks | src/core/timers.cpp:71-92 | with no register write pending, by any cycle a running timer has overflowed as often, and its counter reads, as that many whole prescaler periods of ticks say, however the advances are batched |
| TimerLaws.CascadedPairIsOneCounter | src/core/timers.cpp:441-479 | a reload-0 pair in cascade counts as one 32-bit counter |
| TimerLaws.OverflowsFormProgression | src/core/timers.cpp:453-479 | with no register write pending, a running timer overflows at exactly the cycles of an arithmetic progression, whatever the timers around it do |
| TimerWrites.VisibleCounterNeverWraps | src/core/timers.cpp:437-439 | between services the counter a program reads is at most 0xFFFF before truncation |
| TimerRuns.RunsAgree | src/core/timers.cpp:154-297 | any sequence of byte, half-word and word reads and writes of both registers, and waits, sees the same values and causes the same overflows on the event-driven and on the per-cycle timers |
| TimerRuns.RunsFromResetAgree | src/core/timers.cpp:140-152 | the same from reset |
| TimerWrites.ReloadWriteShown | src/core/timers.cpp:241-253 | a reload write keeps the timing invariant, and on the per-cycle timers changes only what is pending |
| TimerWrites.ControlWriteShown | src/core/timers.cpp:256-283 | a control write keeps the timing invariant, and on the per-cycle timers changes only what is pending |
| TimerUnit.TimerUnit.constructor | src/core/timers.cpp:140-152 | reset establishes the timing invariant |
| TimerUnit.TimerUnit.ReadCounter | src/core/timers.cpp:437-439 | between services, the counter that the per-cycle timer holds at this cycle |
| TimerUnit.TimerUnit.WriteReload | src/core/timers.cpp:241-253 | the timers stay serviced, and all that changes of the per-cycle timers is the value pending for the next cycle |
| TimerUnit.TimerUnit.WriteControl | src/core/timers.cpp:256-283 | the timers stay serviced, and all that changes of the per-cycle timers is the control pending for the next cycle, or the one after when it stops a counting timer |
| TimerUnit.TimerUnit.NextPendingEvent | src/core/timers.cpp:103-130 | the scan finds the unique earliest event, overflow before reload before control, then lowest channel |
| TimerUnit.TimerUnit.OverflowTimer | src/core/timers.cpp:453-479 | overflow with its cascade, interrupt and sound side effects equals the reference step |
| TimerUnit.TimerUnit.TickCascadeTimer | src/core/timers.cpp:441-451 | a cascade tick equals the reference step |
| TimerUnit.TimerUnit.ApplyControlWrite | src/core/timers.cpp:299-407 | a control write stops, reloads and restarts the channel as the reference step does |
| TimerUnit.TimerUnit.ServiceSlot | src/core/timers.cpp:299-407 | servicing one event equals the reference step |
| TimerUnit.TimerUnit.Advance | src/core/timers.cpp:299-407 | the loop computes the reference run: channels, interrupts raised with their 4-cycle delay, FIFO clocks |
| TimerUnit.TimerUnit.NextEventCycle | src/core/timers.cpp:409-417 | the loop computes the earliest stored event |
| Irq.PipelineConserves | src/core/irq.cpp:104-150 | no interrupt is lost or invented: raise and request add exactly the mask, time moves it to IF, and the line equals IME and IE & IF |
| Irq.RaisedArrivesInTime | src/core/irq.cpp:110-128 | a raised interrupt is in IF no later than its delay says, together with everything else waiting |
| Irq.AdvanceClearsDue | src/core/irq.cpp:121-139 | after advancing no delayed interrupt is due, and advancing again changes nothing |
| Irq.RunConserves | src/core/irq.cpp:50-150 | over any run of raises, requests, acknowledges and register writes of every width in which the interrupt is not acknowledged and no byte of IF but its own is written, it is flagged or on its way iff it was before or has been raised or requested since; the line follows the registers throughout |
| Irq.WideWriteIsExact | src/core/irq.cpp:75-99 | a half-word or word write acknowledges exactly the interrupts it names; one to IE or IME none |
| Irq.ByteWriteClears | src/core/irq.cpp:88-93 | a byte write to IF leaves, of the flags, those of its own byte that it does not name, and none of the other byte |
| Irq.ByteWriteIsExactIff | src/core/irq.cpp:88-93 | a byte write to IF acknowledges exactly what it names iff no interrupt of the other byte is flagged |
| Irq.ByteWriteLosesDma | src/core/irq.cpp:88-93 | with vertical blanking and the end of DMA 0 both flagged, a byte write that names only the former clears the latter too |
| Irq.EnableWritten | src/core/irq.cpp:70-102 | after a half-word write to IE the line is up iff IME is on and some new enable below bit 14 is flagged; no interrupt is touched |
| Irq.EnableByteWritten | src/core/irq.cpp:88-93 | a byte write to IE replaces the enables of its own byte only, and touches no interrupt |
| Irq.MasterWritten | src/core/irq.cpp:70-102 | after a write to IME the line is up iff bit 0 is set and some enabled interrupt is flagged; no interrupt is touched |
| Irq.IrqController.Raise | src/core/irq.cpp:110-119 | raise_delayed: only bits neither flagged nor delayed are added, the earlier date wins |
| Irq.IrqController.AdvanceTo | src/core/irq.cpp:121-134 | due delayed bits move to IF together |
| Irq.IrqController.WriteRegister | src/core/irq.cpp:68-102 | a half-word or word write to IF acknowledges what it names, a byte write every flag of the other byte too, any other write none; the line follows the registers |
| Irq.IrqController.RequestNow | src/core/irq.cpp:104-108 | request sets IF bits and recomputes the line |
| Apu.AudioUnit.AdvanceTo | src/core/apu.cpp:217-337 | both event clocks end at their first multiple after now; disabled, both restart from now |
| TimerUnit.FifosDrainByCount | src/core/apu.cpp:199-215 | over any list of overflows each FIFO loses one sample per overflow of its timer, down to none, and asks for DMA iff it was clocked and ends at 16 or fewer; a disabled unit changes nothing |
| SdCachePages.RecentSlotIsNoVictim | platform/esp32s3/components/gba_core/esp32_rom_provider.cpp:654-690 | in a cache of 4 or more pages a slot with at most one newer one is never the victim, given the pin bound |
| SdCachePages.VictimIsUnique | platform/esp32s3/components/gba_core/esp32_rom_provider.cpp:654-690 | the slot to replace is determined: distinct ages leave no choice |
| SdCacheRuns.RequestsKeepShape | platform/esp32s3/components/gba_core/esp32_rom_provider.cpp:394-725 | every request keeps the page table exact, the ages distinct and the pins within their bound |
| SdCacheRuns.FourSlotsShowThePage | platform/esp32s3/components/gba_core/esp32_rom_provider.cpp:541-605 | with 4 or more slots, the slot that read_ptr points into still holds its page after the prefetches, from every reachable state |
| SdCacheRuns.TwoOrThreeSlotsMisread | platform/esp32s3/components/gba_core/esp32_rom_provider.cpp:541-605 | a run from a new cache of 2 or 3 slots, after which read_byte returns a byte of another page |
| SdCacheRuns.OneSlotMisreads | platform/esp32s3/components/gba_core/esp32_rom_provider.cpp:541-605 | with one slot the very first read_byte returns a byte of the next page |
| SdCacheRuns.FlatIffFourSlots | platform/esp32s3/components/gba_core/esp32_rom_provider.cpp:394-725 | on a ROM of more than three pages, of which 0 and 1, and 1 and 3, begin with different bytes, every answer of every run from a new cache is the flat ROM's if and only if it has 4 or more slots |
| SdCacheRuns.AnyRomIsFlatIffFourSlots | platform/esp32s3/components/gba_core/esp32_rom_provider.cpp:394-725 | every ROM, in pages of any size, is shown as it is by every run if and only if there are 4 or more slots |
| SdCacheProvider.RomFile.Read | platform/esp32s3/components/gba_core/esp32_rom_provider.cpp:696-712 | a read may fail after storing any prefix, and ends short without an error where the file does; only the row read into changes |
| SdCacheProvider.SdCacheRomProvider.constructor | platform/esp32s3/components/gba_core/esp32_rom_provider.cpp:363-390 | a new cache satisfies the invariant: exact page table, pins counted and bounded, ages below the clock |
| SdCacheProvider.SdCacheRomProvider.SelectVictim | platform/esp32s3/components/gba_core/esp32_rom_provider.cpp:654-690 | the victim is an empty slot if there is one, else the least recently used unpinned one, else (all pinned) the oldest |
| SdCacheProvider.SdCacheRomProvider.EnsurePageFast | platform/esp32s3/components/gba_core/esp32_rom_provider.cpp:625-652 | a hit exactly when the table has the page; the bookkeeping is that of a touch |
| SdCacheProvider.SdCacheRomProvider.HeatPage | platform/esp32s3/components/gba_core/esp32_rom_provider.cpp:607-615 | pinning keeps the pin count equal to the number of pinned slots and within its bound |
| SdCacheProvider.SdCacheRomProvider.LoadRow | platform/esp32s3/components/gba_core/esp32_rom_provider.cpp:692-715 | a successful load leaves the slot holding exactly the page, padded with FF, whether the ROM or only the file ends in it; other slots keep their bytes |
| SdCacheProvider.SdCacheRomProvider.EnsurePageSlow | platform/esp32s3/components/gba_core/esp32_rom_provider.cpp:654-725 | a miss loads the page over exactly the victim; when seek or read fails the victim is left without a page; the invariant holds either way |
| SdCacheProvider.SdCacheRomProvider.EnsurePage | platform/esp32s3/components/gba_core/esp32_rom_provider.cpp:617-623 | served iff the page lies in the ROM and nothing failed, with the right bytes, from the determined slot; no other row changes |
| DemandAccess.RunCountsStreak | platform/esp32s3/components/gba_core/esp32_rom_provider.cpp:558-568 | from reset, sequential_run is, in 32 bits, the length of the one streak of reads, each begun where the one before ended, that the reads so far end in |
| SdCacheProvider.SdCacheRomProvider.MaybePrefetchAfterRead | platform/esp32s3/components/gba_core/esp32_rom_provider.cpp:583-605 | without a failure exactly the zero, one or two pages that its guards name are prefetched; with 4 or more slots the slot touched last still holds its page whatever fails |
| SdCacheProvider.SdCacheRomProvider.ReadPtr | platform/esp32s3/components/gba_core/esp32_rom_provider.cpp:541-556 | for any number of slots the pointer addresses the page its slot holds once the prefetches are done; with 4 or more that is the page asked for, even after failures |
| SdCacheProvider.SdCacheRomProvider.ReadByte | platform/esp32s3/components/gba_core/esp32_rom_provider.cpp:394-400 | for any number of slots, the byte that the bookkeeping shows; with 4 or more the flat ROM's, FF outside it, and FF iff the load of its page failed |
| SdCacheProvider.SdCacheRomProvider.Read16 | platform/esp32s3/components/gba_core/esp32_rom_provider.cpp:402-415 | the half-word likewise, across pages too: with 4 or more slots that of the flat ROM in which exactly the pages whose load failed in this call are FF |
| SdCacheProvider.SdCacheRomProvider.Read32 | platform/esp32s3/components/gba_core/esp32_rom_provider.cpp:417-430 | the word likewise |
| SdCacheProvider.SdCacheRomProvider.ReadBytes | platform/esp32s3/components/gba_core/esp32_rom_provider.cpp:443-474 | in a cache of any size the bytes of the pages whose load failed in this call are FF and all others are the flat ROM's |
| SdCacheProvider.SdCacheRomProvider.Prefetch | platform/esp32s3/components/gba_core/esp32_rom_provider.cpp:476-486 | without a failure touches exactly the pages of the range, as far as the ROM goes |
| SdCacheProvider.SdCacheRomProvider.ResetFrameStats | platform/esp32s3/components/gba_core/esp32_rom_provider.cpp:496-519 | a frame reset forgets access patterns but keeps pages, ages and pins |
| SdCacheProvider.SdCacheRomProvider.Serve | platform/esp32s3/components/gba_core/esp32_rom_provider.cpp:394-519 | for any sequence of byte, half-word, word and block reads, prefetches and resets: without I/O failure, and for any number of slots, state and answers are those of the bookkeeping; with 4 or more slots, whatever fails, each answer is the flat ROM's but for FF in the pages whose load failed during that request |
| MmapWindows.LeastRecentIsQueued | platform/esp32s3/components/gba_core/esp32_rom_provider.cpp:258-355 | while a window is valid, the heap holds the current entry of the least recently touched one, and no current entry is older |
| MmapWindows.OldestCurrentIsLeastRecent | platform/esp32s3/components/gba_core/esp32_rom_provider.cpp:340-355 | the oldest heap entry that is current names the least recently touched valid window |
| MmapWindows.MissLoses | platform/esp32s3/components/gba_core/esp32_rom_provider.cpp:281-355 | exactly what a miss loses and recovers: a failed mapping loses its window, and a lost window comes back iff it is window 0, nothing is free or valid, and the mapping succeeds |
| MmapProvider.MmapRomProvider.SelectVictim | platform/esp32s3/components/gba_core/esp32_rom_provider.cpp:340-355 | a free window if there is one, else exactly the least recently touched valid window; the fallback to window 0 never meets a valid one |
| MmapProvider.MmapRomProvider.Evict | platform/esp32s3/components/gba_core/esp32_rom_provider.cpp:287-301 | evicting unmaps exactly the victim's handle |
| MmapProvider.MmapRomProvider.Fill | platform/esp32s3/components/gba_core/esp32_rom_provider.cpp:303-338 | filling a window adds exactly its handle and makes it the most recent |
| MmapProvider.MmapRomProvider.MapInto | platform/esp32s3/components/gba_core/esp32_rom_provider.cpp:303-338 | whether or not mapping succeeds, the outstanding handles are exactly those of valid windows |
| MmapProvider.MmapRomProvider.EnsureWindow | platform/esp32s3/components/gba_core/esp32_rom_provider.cpp:258-338 | serves the window of the page, touching it; a miss takes the least recent window; which windows are lost afterwards is stated exactly, for hit, miss and failure |
| MmapProvider.MmapRomProvider.EnsureAll | platform/esp32s3/components/gba_core/esp32_rom_provider.cpp:258-338 | over any run of calls a lost window comes back only if it is window 0 and every other window is lost |
| MmapProvider.MmapRomProvider.ReadPtr | platform/esp32s3/components/gba_core/esp32_rom_provider.cpp:222-243 | the window returned maps the bytes requested |
| MmapProvider.MmapRomProvider.ReadByte | platform/esp32s3/components/gba_core/esp32_rom_provider.cpp:88-94 | the byte of the flat ROM, FF outside it, and FF iff its mapping failed |
| MmapProvider.MmapRomProvider.Read16 | platform/esp32s3/components/gba_core/esp32_rom_provider.cpp:96-109 | the half-word, across windows too, of the flat ROM in which as many windows are FF as mappings failed |
| MmapProvider.MmapRomProvider.ReadBytes | platform/esp32s3/components/gba_core/esp32_rom_provider.cpp:137-164 | the bytes of the windows that could not be mapped, as many as mappings failed, are FF and all others are the flat ROM's |
| Recency.OrderIsDistinct | src/core/rom_provider.cpp:292-332 | the recency order of a trace lists each touched page once |
| Recency.AfterMeansTouchedSince | src/core/rom_provider.cpp:292-332 | what follows a page in the recency order is exactly the set of pages touched since its last touch |
| Recency.AmongLastIffFewTouchedSince | src/core/rom_provider.cpp:292-332 | a page is among the last C distinct ones iff fewer than C other pages were touched since |
| Recency.CacheStep | src/core/rom_provider.cpp:292-332 | one step of the LRU list keeps it the last C distinct pages of the trace |
| Recency.LargerCacheMissesNoMore | src/core/rom_provider.cpp:292-332 | on one trace a smaller cache holds the most recent part of what a larger one holds, and the larger one misses no more often |
| MemoryProvider.MemoryRomProvider.TouchPage | src/core/rom_provider.cpp:292-332 | a hit iff the page is among the last C distinct pages touched; the misses counted are those of the frame's touches; prefetched pages stay cached and prefetch hits never exceed prefetch misses |
| MemoryProvider.MemoryRomProvider.EvictFirst | src/core/rom_provider.cpp:311-325 | the least recent page leaves the list and the prefetched pages |
| MemoryProvider.MemoryRomProvider.TouchPages | src/core/rom_provider.cpp:276-286 | a range touches its pages in order, and had_miss says whether one of them missed |
| MemoryProvider.MemoryRomProvider.MaybePrefetchAfterRead | src/core/rom_provider.cpp:343-369 | exactly the zero, one or two pages ahead that the guards, the streaming run and the end of the ROM leave |
| MemoryProvider.MemoryRomProvider.TouchRange | src/core/rom_provider.cpp:263-290 | a read touches exactly the pages it meets, in order, then exactly those it prefetches; without a cache it is only counted |
| MemoryProvider.MemoryRomProvider.MorePagesMissNoMore | src/core/rom_provider.cpp:292-332 | two providers on the same touches: the one with more pages holds all the other holds and has counted no more misses |
| MemoryProvider.MemoryRomProvider.ResetFrameStats | src/core/rom_provider.cpp:249-257 | counters and prefetched pages are cleared, the cache is kept |
| Lcd.RunsStayInPhase | src/core/ppu.cpp:287-297 | after any sequence of advances, DISPSTAT writes and consumed flags from reset the clock is in phase with the cycle count |
| Lcd.PhaseIsTime | src/core/ppu.cpp:734-776 | in phase at cycle t means vcount = (t / 1232) % 228, hblank iff t % 1232 >= 1007, vblank iff vcount >= 160, DISPSTAT bits 0-2 agree, and the next event is the next edge after t |
| Lcd.AdvanceIsIndependentOfBatching | src/core/ppu.cpp:287-297 | splitting an advance changes neither the state nor the interrupts raised |
| Lcd.RaisesExact | src/core/ppu.cpp:741-776 | with DISPSTAT left alone an interrupt is raised iff it is due: HBlank at 1007 of every line, VBlank once per 280896-cycle frame, VCount at its line |
| Lcd.RunRaisesExactly | src/core/ppu.cpp:741-776 | over any run from reset, however it is split and whenever DISPSTAT is written, an interrupt is raised for a cycle iff the clock has passed it and it was due by DISPSTAT as it then stood |
| Lcd.RaisesInOrder | src/core/ppu.cpp:287-297 | interrupts are raised in chronological order |
| Lcd.AdvanceOffers | src/core/ppu.cpp:715-724 | an advance offers the last visible line whose blanking began meanwhile, and a frame iff a vertical blanking did |
| Lcd.EveryLineEmittedOnce | src/core/emulator.cpp:158-162 | serviced with at most one blanking in between, every visible line is emitted exactly once and in order |
| Lcd.RenderingGoesOn | src/core/emulator.cpp:158-162 | a service on time that renders the line on offer leaves no visible line out: what has been rendered is the visible lines so far |
| Lcd.SoonIsOnTime | src/core/emulator.cpp:61-72 | a service is on time no later than 1232 cycles after the one before, or 1007 after the next LCD event |
| Lcd.EveryFrameHasEveryLine | include/gba/core/constants.hpp:12-18 | in any 280896 consecutive cycles each of lines 0-159 begins its blanking exactly once, no other line is visible, and one vertical blanking begins |
| Lcd.LcdUnit.WriteDispstat | src/core/ppu.cpp:203-203 | a write to DISPSTAT cannot change the three hardware flags |
| Lcd.LcdUnit.EnterHorizontalBlank | src/core/ppu.cpp:741-746 | offers the line unless in vertical blanking, raises HBlank if enabled |
| Lcd.LcdUnit.EnterVerticalBlank | src/core/ppu.cpp:757-762 | reports a frame, raises VBlank if enabled |
| Lcd.LcdUnit.HandleVcountCompare | src/core/ppu.cpp:769-776 | the match flag equals the comparison; VCount raised iff matching and enabled |
| Lcd.LcdUnit.LeaveHorizontalBlank | src/core/ppu.cpp:748-755 | moves to the next line, entering or leaving vertical blanking at 160 and 0 |
| Lcd.LcdUnit.AdvanceTo | src/core/ppu.cpp:287-297 | the loop computes the reference run and raises exactly its interrupts, one cycle delayed |
| Lcd.LcdUnit.ConsumeScanline | src/core/ppu.cpp:715-719 | a line is taken at most once |
| Lcd.LcdUnit.ConsumeFrame | src/core/ppu.cpp:720-724 | a frame is reported at most once |
| RamBus.LoadOfStore | src/core/bus.cpp:770-844 | a stored half-word or word is loaded back, at any offset, wrapping at the end included |
| RamBus.Memory.ReadArray | src/core/bus.cpp:770-805 | both ways of reading (in bounds, wrapping) are one little-endian load at the aligned offset |
| RamBus.Memory.WriteArray | src/core/bus.cpp:807-844 | both ways of writing are one little-endian store at the aligned offset |
| RamBus.Memory.Read | src/core/bus.cpp:282-300 | the EWRAM, IWRAM and VRAM arms: mirrored place, value and cycles |
| RamBus.Memory.Write | src/core/bus.cpp:439-475 | the EWRAM, IWRAM and VRAM arms: only the addressed unit of one memory changes |
| RamBus.Memory.ReadByte | src/core/bus.cpp:282-300 | the byte at the mirrored place, for the cycles of a half-word |
| RamBus.Memory.WriteByte | src/core/bus.cpp:439-475 | only the addressed byte changes, in VRAM the other byte of its half-word too, and nothing in the last 16 KiB of VRAM |
| RamBus.ByteReadsBackIff | src/core/bus.cpp:466-472 | a byte written is read back, whatever was there, iff it is not in the last 16 KiB of VRAM |
| DmaCopy.StoreOfLoad | src/core/dma.cpp:78-139 | storing what was loaded copies the bytes |
| DmaCopy.BurstIsUnitByUnit | src/core/dma.cpp:341-405 | the RAM-to-RAM bulk copy leaves memory, bus latch, both addresses and cycles exactly as the unit-by-unit bus loop, for every count, width, alignment and overlap its guard admits |
| DmaCopy.VramLoopIsUnitByUnit | src/core/dma.cpp:406-476 | the RAM-to-VRAM loop equals the unit-by-unit bus loop while the source stays in its 16 MiB region |
| DmaCopy.StaysInRegionIffEveryUnitDoes | src/core/dma.cpp:379-419 | the condition on source and length is exactly that every unit is read from the first one's region |
| DmaCopy.VramLoopExactIffStaysInRegion | src/core/dma.cpp:406-476 | over RAM the shortcut is exact if and only if the source stays in its region: past it, it charges more cycles than the bus loop |
| DmaCopy.OverrunDiffers | src/core/dma.cpp:406-476 | two words from 0x02FFFFFC: the shortcut stores the first word of EWRAM where the bus stores the first of IWRAM, and takes 16 cycles for 11 |
| DmaTransfer.CopyBytes | src/core/dma.cpp:399-399 | memcpy of non-overlapping ranges, in place |
| DmaTransfer.BulkCopy | src/core/dma.cpp:398-405 | the burst code computes the bulk copy, its latch read back after copying |
| DmaTransfer.VramLoop | src/core/dma.cpp:406-419 | the loop over raw memory computes the RAM-to-VRAM transfer |
| DmaTransfer.BusLoop | src/core/dma.cpp:434-476 | the loop over the bus computes the unit-by-unit transfer |
| DmaTransfer.Transfer | src/core/dma.cpp:337-476 | whichever path service_due takes, the result is the unit-by-unit transfer unless a RAM-to-VRAM source leaves its region |
| DmaEngine.JobIsReady | src/core/dma.cpp:303-345 | a due channel has between 1 and 0x10000 units and aligned addresses |
| DmaEngine.ServedStaysValid | src/core/dma.cpp:478-498 | a served channel is no longer due; still enabled, it has a count to transfer |
| DmaEngine.BusyIffDue | src/core/dma.cpp:303-321 | cycles are charged iff some channel was due |
| DmaEngine.DmaController.constructor | src/core/dma.cpp:151-154 | reset: no channel waits |
| DmaEngine.DmaController.LatchTransferState | src/core/dma.cpp:562-567 | the count is between 1 and the largest, and equal to the register modulo that; both addresses are the register's, within the bus the channel reaches |
| DmaEngine.DmaController.WriteCount | src/core/dma.cpp:220-222 | the count register is masked to its width |
| DmaEngine.DmaController.WriteControl | src/core/dma.cpp:223-238 | enabling latches and, for immediate timing, schedules 3 cycles on; disabling cancels; enabled always implies a count of at least one |
| DmaEngine.DmaController.MarkPending | src/core/dma.cpp:541-553 | exactly the enabled channels with this timing are scheduled two cycles on |
| DmaEngine.DmaController.MarkOne | src/core/dma.cpp:541-553 | an enabled channel never has a zero count, so the re-latch is dead code |
| DmaEngine.DmaController.RequestFifo | src/core/dma.cpp:266-288 | only channel 1 or 2 in special timing is scheduled |
| DmaEngine.DmaController.ServeChannel | src/core/dma.cpp:478-502 | finish or repeat, with destination reload, and the completion interrupt |
| DmaEngine.DmaController.ServiceDue | src/core/dma.cpp:303-516 | all due channels run in order, two extra cycles if any did, and afterwards nothing is due at this cycle |
| DmaService.ServeOverRam | src/core/dma.cpp:321-503 | a due channel served over RAM: memory, the channel's next state, its interrupt and its cycles are those of a unit-by-unit transfer, or of the VRAM shortcut where that differs |
| DmaRounds.ServiceIsRound | src/core/emulator.cpp:141-172 | one round: lines that fire start their channels two cycles later, so never in the same round |
| DmaRounds.BusyRoundLowers | src/core/emulator.cpp:141-172 | with all repeating channels on one line, every round in which DMA moves anything lowers a weight of at most 20 |
| DmaRounds.BusyRoundsBounded | src/core/emulator.cpp:141-172 | so there are at most 20 such rounds in a row, whatever lines fire and however long transfers take |
| DmaRounds.TwoLinesNeverEnd | src/core/emulator.cpp:141-172 | with repeating channels on two lines and one channel due, there are lines whose firing keeps n rounds in a row busy, for every n |
| DmaRounds.ServiceEndsIffOneLine | src/core/emulator.cpp:141-172 | over all sequences of lines that might fire, busy rounds are bounded if and only if nothing is due or all repeating channels are on one line |
| ServiceRounds.IdleTakesNoTime | src/core/emulator.cpp:138-176 | a round takes time iff it is busy |
| EndlessService.FourWordsCost | src/core/dma.cpp:434-476 | a FIFO transfer of four words from IWRAM to EWRAM with a fixed source costs 28 cycles and leaves its addresses where they were |
| EndlessService.RoundGoesOn | src/core/emulator.cpp:138-176 | two timers that overflow thirty cycles apart, each asking for samples on its own FIFO line, find in each busy round the other line's channel waiting again |
| EndlessService.TwoFifosKeepBusy | src/core/emulator.cpp:138-176 | from such a state of timers, FIFOs and channels, n rounds in a row are busy for every n, with nothing but the machine's own clocks firing the lines |
| EndlessService.HumBegins | src/core/emulator.cpp:138-176 | it begins with one idle round at the first overflow and one instruction of 31 cycles after it |
| EndlessService.SwitchedOnTicks | src/core/timers.cpp:241-407 | a timer switched on at cycle c with reload 0xFFC4 next overflows at c + 62, and the two writes have no other effect |
| EndlessService.FromReset | src/core/emulator.cpp:44-176 | a machine from reset, its registers written in cycles 0 and 30, whose service in cycle 93 has not ended after any number of rounds |
| Scheduler.LeastIsMinimum | src/core/scheduler.cpp:42-49 | the recomputing loop's value is the minimum of the slots |
| Scheduler.EventScheduler.RecomputeNextEvent | src/core/scheduler.cpp:42-49 | sets the cached value to the minimum |
| Scheduler.EventScheduler.SetNextEvent | src/core/scheduler.cpp:27-36 | the cached minimum is the true minimum after any update, though recomputed only when its holder moves back |
| Emulator.Machine.ServiceSerial | src/core/bus.cpp:609-616 | after the call no serial event is due; completion requests its interrupt |
| Emulator.Machine.ServiceFifos | src/core/bus.cpp:617-622 | both FIFO requests are taken, each starting its channel two cycles on if that is enabled in special timing |
| Emulator.Machine.ServiceTimers | src/core/bus.cpp:607-624 | timers are serviced to this cycle, their overflows clock the FIFOs, and exactly the lines of the FIFOs that then ask are fired |
| Emulator.Machine.Render | src/core/emulator.cpp:158-162 | the line on offer goes to the renderer unless the frame is skipped |
| Emulator.Machine.ServiceLcd | src/core/emulator.cpp:146-162 | the LCD is past this cycle, exactly the channels on the blanking lines that rose start two cycles on, and while services are on time what has been rendered is every visible line so far |
| Emulator.Machine.Round | src/core/emulator.cpp:141-172 | one round: PPU, timers, serial, APU and DMA events are all after this cycle; the lines that fired, the next cycle and what decides the next round are those of the round function, and time passes iff it was busy; a round at a quiet cycle only clears the delayed interrupt |
| Emulator.Machine.FirstRound | src/core/emulator.cpp:138-176 | one round and what it leaves to the later ones: it keeps all repeating channels on one line and lowers their weight, and is on time for the next line if it costs no more than one |
| Emulator.Machine.RefreshSchedule | src/core/emulator.cpp:128-136 | every slot holds its subsystem's next event and the cached minimum is theirs |
| Emulator.Machine.ServiceDueHardware | src/core/emulator.cpp:138-176 | the loop ends within the given rounds iff one of them is idle by the machine's own clocks, and reaches the state of the round functions; with all repeating DMA channels on one line that takes at most 21 rounds; then nothing but a delayed interrupt is due, and a second call clears it; no visible line is missed while no round outlasts a line |
| Emulator.Machine.NextIsIrqOrLater | src/core/emulator.cpp:128-176 | only the interrupt slot can still hold the scheduler at the current cycle |
| Emulator.Machine.CpuRun | src/core/cpu.cpp:1121-1199 | whatever a program does to timers, DMA, LCD, sound, serial and interrupt registers, the machine's invariant holds, and the target is reached, overshot by one step at most, unless it was passed, when nothing happens |
| Emulator.Machine.OneTurn | src/core/emulator.cpp:61-72 | one time round run_until: a turn whose service ends but in which no time passes leaves fewer such turns to come |
| Emulator.Machine.RunUntil | src/core/emulator.cpp:61-72 | whatever the CPU does, run_until reaches its target within twice as many turns as cycles are left, and three, unless a service does not end; it then stops where nothing but a delayed interrupt is due. If no step of the CPU outlasts 1007 cycles and no round of DMA a line, then since reset every visible line has been rendered exactly once and in order |
| Emulator.Machine.Start | src/core/emulator.cpp:44-59 | reset ends with the scheduler knowing what comes first, and the LCD on time |
| CpuBanks.SeesOwnBank | src/core/cpu.cpp:2972-3026 | what a mode sees in a register is the physical register of that name in its bank |
| CpuBanks.SwitchKeepsValues | src/core/cpu.cpp:2972-3026 | switch_mode changes no physical register |
| CpuBanks.WriteChangesOne | src/core/cpu.cpp:2972-3026 | a register write changes exactly the physical register the mode calls so |
| CpuBanks.RunKeepsPhysicalFile | src/core/cpu.cpp:2972-3026 | over any run of mode switches and writes a physical register holds what was last written to it |
| CpuBanks.EachModeSeesItsOwnWrites | src/core/cpu.cpp:2972-3026 | each mode then sees in each register the last write to its own bank |
| CpuBanks.LandsWhereProgramResumes | src/core/cpu.cpp:1239-1264 | the matching return of A2.6 lands where the program has to go on iff the exception is a call raised after its instruction was fetched, or any other but a reset raised before pc moved; as the code raises them that holds of calls and interrupts, while an undefined instruction (and a data abort, which it never raises) lands one instruction too far |
| CpuBanks.EnterChangesLinkOnly | src/core/cpu.cpp:3028-3040 | exception entry changes one physical register, the handler's r14 |
| CpuBanks.EnterSavesStatus | src/core/cpu.cpp:3028-3040 | exception entry saves CPSR in the handler's SPSR and touches no other |
| CpuBanks.ReturnRestores | src/core/cpu.cpp:2384-2394 | if the handler leaves its SPSR, its r14 and the interrupted registers as they were, the return restores CPSR and r0-r14, and lands where the program has to go on under exactly that condition |
| CpuBanks.SameModeLosesLinkAndStatus | src/core/cpu.cpp:3028-3040 | from the handler's own mode CPSR comes back, r14 iff it already held the return address, and the SPSR that was there is lost |
| CpuBanks.NestDisturbsOnlyItsModes | src/core/cpu.cpp:3028-3046 | a nest of exceptions disturbs only the link registers and SPSRs of its own modes |
| CpuBanks.NestRestores | src/core/cpu.cpp:3028-3046 | nested to any depth of distinct modes, unwinding restores CPSR and r0-r14, and the place where the program has to go on as the outermost return does |
| CpuBanks.NestReturnsIffModesDistinct | src/core/cpu.cpp:3028-3046 | a nest that starts outside its modes returns to its mode if and only if no mode is entered twice |
| CpuBanks.NestRestoresIffModesDistinct | src/core/cpu.cpp:3028-3046 | and it restores CPSR and r0-r14 if and only if no mode is entered twice |
| CpuBanks.RepeatedModeNeverReturns | src/core/cpu.cpp:3028-3046 | two nested exceptions of one mode leave the program in that mode, its SPSR overwritten, even where r14 survives |
| CpuBanks.Cpu.ChangeMode | src/core/cpu.cpp:2972-3026 | the copying code computes the mode switch |
| CpuBanks.Cpu.RaiseException | src/core/cpu.cpp:1239-1264 | each exception type enters its mode with its vector, masks and return address |
| CpuBanks.Cpu.ExceptionReturn | src/core/cpu.cpp:2384-2394 | the S-bit write to pc restores the mode's SPSR; in User mode it is a plain branch |
| CarryChain.PlainIsChained | src/core/cpu.cpp:3053-3096 | the sign-bit rule for V and the 64-bit-range rule agree: ADDS is ADCS without carry, SUBS is SBCS without borrow |
| CarryChain.AddChainAdds | src/core/cpu.cpp:2301-2334 | ADDS and any number of ADCS compute the n-word sum; final C is the carry out, N and V the sign and signed overflow of the whole |
| CarryChain.SubtractChainSubtracts | src/core/cpu.cpp:2301-2334 | SUBS and any number of SBCS compute the n-word difference; final C says no borrow, N and V as above |
| CarryChain.Alu.UpdateNzcAdd | src/core/cpu.cpp:3053-3059 | the flags of an addition |
| CarryChain.Alu.UpdateNzcSub | src/core/cpu.cpp:3061-3067 | the flags of a subtraction |
| CarryChain.Alu.UpdateNzcvAdc | src/core/cpu.cpp:3069-3081 | the flags of an addition with carry |
| CarryChain.Alu.UpdateNzcvSbc | src/core/cpu.cpp:3083-3096 | the flags of a subtraction with borrow |
| PingPong.RunsAreSafe | platform/esp32s3/main/gba_runtime.cpp:340-400 | every state of every interleaving satisfies the hand-off invariant |
| PingPong.NeverTorn | platform/esp32s3/main/gba_runtime.cpp:362-392 | the display never draws the buffer being rendered, and notification counts stay at most one |
| PingPong.DrawnInOrder | platform/esp32s3/main/gba_runtime.cpp:383-600 | published frames are handed to display_draw exactly once, in order, with at most one outstanding; on the screen they appear in that order, and frame i iff its call succeeded |
| PingPong.NeverDeadlocked | platform/esp32s3/main/gba_runtime.cpp:384-392 | in every reachable state some task can move |
| PingPong.BlockedCpuIsServed | platform/esp32s3/main/gba_runtime.cpp:591-600 | a CPU task waiting for the display is released after at most four steps of the display task, none of which can block, whether drawing fails or not |
| PingPong.PublishedFrameIsDrawn | platform/esp32s3/main/gba_runtime.cpp:591-600 | a published frame is handed to display_draw within three further steps of the display task, and then drawn unless that fails |
| PingPong.SkippedFrameIsInvisible | platform/esp32s3/main/gba_runtime.cpp:356-396 | a skipped frame touches no buffer, index or notification |
| HleMemory.WrittenHolds | src/core/cpu.cpp:508-588 | a block written byte by byte to work RAM is read back at every mirror, and no other byte changes |
| HleMemory.FitsInRegion | src/core/bus.cpp:282-287 | a range is made of different bytes if it stays in its 16 MiB and is no longer than the memory, across a mirror's end too |
| HleDecoders.UnfilterInvertsDifferences | src/core/cpu.cpp:835-874 | unfiltering undoes byte differencing modulo 256, from any source to work RAM through any mirror, if they share no byte |
| HleDecoders.RlDecodes | src/core/cpu.cpp:628-665 | decoding any run/literal encoding writes the bytes it stands for, cut off at the size asked for |
| HleDecoders.RlUncompressInverts | src/core/cpu.cpp:592-665 | the call decodes whatever run-length encoding follows its header, in ROM or RAM, to work RAM through any mirror, if they share no byte |
| HleLz77.FlagsShift | src/core/cpu.cpp:519-585 | the flag byte announces tokens from its highest bit down |
| HleLz77.CopyRepeats | src/core/cpu.cpp:574-582 | a copy from within the output repeats it byte by byte, overlap included |
| HleLz77.LzDecodes | src/core/cpu.cpp:514-588 | from anywhere within a flag group, decoding writes what the remaining tokens stand for |
| HleLz77.LzUncompressInverts | src/core/cpu.cpp:497-590 | the call writes exactly `size` bytes, equal to expanding the tokens that follow its header, for every token list whose copies stay within the output, in ROM or RAM, to work RAM through any mirror, if they share no byte |
| HleCalls.AddressSpace.DiffUnfilter8 | src/core/cpu.cpp:835-874 | the loop over the bus computes the unfiltering |
| HleCalls.AddressSpace.RlUncompress | src/core/cpu.cpp:592-665 | the loop over the bus computes the run-length decoding |
| HleCalls.AddressSpace.Lz77Uncompress | src/core/cpu.cpp:497-590 | the nested loops over the bus compute the LZ77 decoding |
| IntegerSqrt.Sqrt | src/core/cpu.cpp:364-380 | the largest integer whose square does not exceed the value |
| RomSearch.WindowExtends | src/core/rom_provider.cpp:146-166 | searching the carried tail and the new chunk finds exactly the matches that end in the chunk |
| RomSearch.Search | src/core/rom_provider.cpp:154-160 | std::search: found iff the needle occurs in the valid bytes |
| RomBytes.DeliveredIffShown | platform/esp32s3/components/gba_core/esp32_rom_provider.cpp:146-164 | the bytes that read_bytes of a paging provider promises are those of the ROM with FF throughout its missing pages |
| RomSearch.ShownIffIntact | platform/esp32s3/components/gba_core/esp32_rom_provider.cpp:146-164 | in what a paging provider delivers a needle without FF occurs exactly where it occurs in the ROM clear of the missing bytes |
| RomSearch.NothingInventedIff | platform/esp32s3/components/gba_core/esp32_rom_provider.cpp:146-164 | whatever cannot be read, nothing is found that is not there, if and only if the needle is free of FF |
| RomSearch.ContainsChunked | src/core/rom_provider.cpp:146-168 | for any chunk size, found iff the needle is a substring of what the provider delivers, in which bytes that could not be read are FF; a refused read can only lose matches |
| RomSearch.Contains | src/core/rom_provider.cpp:130-168 | exact on a contiguous ROM; else a needle without FF is found iff it occurs where it can be read, and never where it does not |
| RomSearch.ScanFeatures | src/core/cartridge.cpp:561-602 | each flag is set iff its tag occurs in what the provider delivers, tags straddling chunks included |
| RomSearch.ScanTags | src/core/cartridge.cpp:540-607 | each of the eight tags of the cartridge scan is seen iff it occurs where it can be read |
| Flash.RunRemembers | src/core/cartridge.cpp:398-476 | in every run phase 3 holds iff exactly one of write-enable and bank-select is set, and each phase remembers the writes that led to it |
| Flash.EraseEnableIsPending | src/core/cartridge.cpp:431-460 | the erase flag is set iff an unlocked 80 has not yet been consumed by an erase command |
| Flash.ByteAfterWrite | src/core/cartridge.cpp:398-484 | after any run and one more write each saved byte is: that write's value if it programs this byte (A0 just given to an unlocked chip, the address in the current bank), FF if it erases it (an unlocked 10, or 30 for its 4 KB sector, with an 80 pending from however far back), and otherwise what it was |
| Flash.WriteEnableIsCommand | src/core/cartridge.cpp:436-472 | the chip takes a write as data iff the write before it was A0 to an unlocked chip |
| Flash.ProgramSequence | src/core/cartridge.cpp:436-472 | unlock, A0, data changes exactly the addressed byte of the current bank |
| Flash.ProgramSequenceNeedsIdle | src/core/cartridge.cpp:398-477 | from any other phase but bank selection the same four writes program nothing but, at worst, their own first byte |
| Flash.BankSequence | src/core/cartridge.cpp:440-476 | unlock, B0, bank selects the bank on the larger chip and does nothing on the smaller |
| Flash.EraseSequence | src/core/cartridge.cpp:433-460 | unlock, 80, unlock, 30 or 10 sets exactly the addressed sector or the whole chip to FF |
| Flash.SectorFits | src/core/cartridge.cpp:453-455 | a sector lies whole in the current bank |
| Flash.FlashChip.WriteByte | src/core/cartridge.cpp:398-419 | the command machine computes the reference step |
| Flash.FlashChip.HandleCommand | src/core/cartridge.cpp:421-462 | every command has its effect, unknown ones none |
| Flash.FlashChip.HandleExtended | src/core/cartridge.cpp:464-477 | the write after A0 or B0 |
| Debounce.CounterIsBestSurplus | platform/esp32s3/main/gba_input.cpp:86-114 | over any samples the counter is the largest mismatch-minus-match surplus of a window ending now since the last change, and stays below a non-zero threshold |
| Debounce.FlipsExactlyAtThreshold | platform/esp32s3/main/gba_input.cpp:97-112 | a key changes iff a mismatching sample lets some such window reach the threshold; a zero threshold is immediate |
| Debounce.BestIsUnique | platform/esp32s3/main/gba_input.cpp:86-114 | the largest surplus is well defined |
| Debounce.SaturatingAdd | platform/esp32s3/main/gba_input.cpp:64-67 | the sum, capped |
| Debounce.KeyScanner.TimerCallback | platform/esp32s3/main/gba_input.cpp:71-128 | each mapped key is scanned once and the mask clears exactly the pressed keys |
| Debounce.KeyScanner.ScanKey | platform/esp32s3/main/gba_input.cpp:86-113 | one integrator step |

## Left out

- Emulator.Machine.ServiceDueHardware: the loop is cut at a given number of rounds, because with repeating channels on two lines it need not end. What each transfer costs and where it leaves its addresses is given; a transfer that rewrites registers of the timers, the sound unit or DMA is not modelled.
- Emulator.Machine.RunUntil: what the CPU does in each turn is a list of its effects on the hardware, not instructions; run_frame and step_scheduler_event are left out.
- DmaCopy.BurstIsUnitByUnit: open_bus_ and last_access_ are not compared; the shortcuts do not update them and the bus loop does. The cycle argument of each access, which RAM ignores, is not modelled.
- DmaTransfer.Transfer: transfers that touch palette, OAM, I/O registers, ROM or save memory are outside the model, so a precondition keeps every unit in EWRAM, IWRAM or VRAM (or the source below 0x02000000, where the latch supplies the value).
- DmaTransfer.BusLoop: the same precondition, for the same reason.
- DmaService.ServeOverRam: the same precondition, for the same reason.
- DmaCopy.VramLoopExactIffStaysInRegion: an IWRAM source that runs on into the I/O registers is left out; no comparison is made there.
- DmaEngine.DmaController.ServiceDue: a transfer that rewrites the DMA registers while it runs is not modelled; the outcome of each transfer is a parameter here, and DmaService gives it for transfers within RAM.
- RamBus.Memory.ReadArray: byte accesses are ReadByte's, and an array that was never allocated is left out.
- RamBus.Memory.WriteArray: byte accesses are WriteByte's, and an array that was never allocated is left out.
- RamBus.Memory.Read: byte accesses are ReadByte's; the open-bus value that each access updates is left out.
- RamBus.Memory.Write: byte accesses are WriteByte's; the mark that tells the renderer of changed video memory is left out.
- SdCacheProvider.SdCacheRomProvider.ReadPtr: the statistics counters and the list of unique pages are not modelled; they do not influence which bytes are read. After a failure in a cache of fewer than four slots nothing is said of what the pointer addresses.
- MmapProvider.MmapRomProvider.ReadByte: read32, prefetch and the statistics of the mmap provider are left out; they add nothing to the window bookkeeping.
- Irq.IrqController.AdvanceTo: write_apply_cycle_ and pending_if_ are left out; no code sets the former, so the latter always equals IF.
- Irq.IrqController.WriteRegister: the function as it stands, for every address; the bus passes on only 0x04000200, 0x04000202 and 0x04000208, so that a byte write reaches low bytes only.
- Lcd.LcdUnit.AdvanceTo: pixel rendering, dirty lines, the tile cache and the per-line sprite lists are left out.
- CpuBanks.NestRestores: handlers are entered and left at once, without code of their own between; mode bits that name no mode, instruction decoding, user-bank transfers and SPSR access from User and System (which alias the Supervisor's) are left out. enter_exception clears the FIQ mask on exceptions that A2.6 says leave it alone; the theorems follow the code, and the return restores it either way.
- CarryChain.AddChainAdds: the Z flag describes the last word only, as in the hardware, so nothing is claimed of it for the whole number.
- HleLz77.LzUncompressInverts: the destination is work RAM, of which the call may not overwrite its own source; palette, OAM, I/O and save memory and the cycles of the accesses are left out, which goes for the other decoders too. The VRAM form, Huffman, 16-bit and bit-unpacking calls are left out, and no compatibility of the token layout with the BIOS is claimed.
- Flash.FlashChip.WriteByte: save files of another size than the chip, EEPROM and SRAM saves and the chip identification reads are left out.
- HleCalls.AddressSpace.DiffUnfilter8: the form that writes bytes; the VRAM form and the cycle count are left out.
- HleCalls.AddressSpace.RlUncompress: the same.
- HleCalls.AddressSpace.Lz77Uncompress: the same.
- Flash.BankSequence: stated from an idle chip; ByteAfterWrite and RunRemembers speak of every other start.
- Flash.ProgramSequence: the same; ProgramSequenceNeedsIdle says what it does from other phases.
- Flash.EraseSequence: six adjacent writes from an idle chip; ByteAfterWrite covers an 80 and its erase command however far apart.
- PingPong.RunsAreSafe: drawing and rendering are single steps that begin and end; what a failed draw leaves on the screen, audio, key input and save-file writes of the two tasks are left out.
- RomSearch.ScanFeatures: the scan's result cache is left out.
- Drivers, task creation, logging, the real-time clock, APU synthesis and the GamePak prefetch timing are left out.
