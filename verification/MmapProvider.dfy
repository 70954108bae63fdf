/** The flash-mapping ROM provider as an object. */
module MmapProvider {
  import opened Basics
  import opened RomBytes
  import opened MmapWindows
  import opened Recency

  /** The flash partition: `maps` are the mappings handed out and not yet given back. Mapping may fail. */
  class Partition {
    const bytes: seq<u8>
    var maps: map<nat, Mapping>
    var nextHandle: nat
    ghost var failures: nat

    constructor (content: seq<u8>)
      ensures bytes == content && maps == map[] && failures == 0
    {
      bytes, maps, nextHandle, failures := content, map[], 0, 0;
    }

    ghost predicate Valid()
      reads this
    {
      forall h :: h in maps ==> h < nextHandle && maps[h].base + maps[h].length <= |bytes|
    }

    method Map(base: nat, length: nat) returns (ok: bool, handle: nat)
      requires Valid() && base + length <= |bytes|
      modifies this
      ensures Valid()
      ensures ok ==> handle !in old(maps) && maps == old(maps)[handle := Mapping(base, length)] && failures == old(failures)
      ensures !ok ==> maps == old(maps) && failures == old(failures) + 1
    {
      ok := *;
      handle := nextHandle;
      if ok {
        maps := maps[handle := Mapping(base, length)];
        nextHandle := nextHandle + 1;
      } else {
        failures := failures + 1;
      }
    }

    /** Giving back a mapping that is not outstanding is an error of the caller. */
    method Unmap(handle: nat)
      requires Valid() && handle in maps
      modifies this
      ensures Valid() && maps == old(maps) - {handle} && failures == old(failures)
    {
      maps := maps - {handle};
    }

    /** Reading through a mapping that has been given back, or past its end, is an error of the caller. */
    function Deref(handle: nat, offset: nat): u8
      requires Valid() && handle in maps && offset < maps[handle].length
      reads this
    {
      bytes[maps[handle].base + offset]
    }
  }

  class MmapRomProvider {
    const partition: Partition
    const size: nat
    const windowBytes: nat
    const windows: array<Window>
    const windowSlots: array<int>
    var freeWindows: seq<nat>
    var lru: seq<WindowAge>
    var clock: nat
    ghost var recency: seq<nat>

    /** Everything but the queue: tables, recency order, free list, and the mappings being `maps`. */
    ghost predicate ConsistentFor(maps: map<nat, Mapping>)
      reads this, partition, windows, windowSlots
    {
      && size <= |partition.bytes| && windowBytes > 0 && windows.Length > 0
      && windowSlots.Length == PageCount(size, windowBytes)
      && partition.Valid() && HandlesExact(maps, windows[..], size, windowBytes)
      && TableExact(windowSlots[..], windows[..])
      && RecencyExact(recency, windows[..], clock)
      && FreeExact(freeWindows, windows[..])
    }

    ghost predicate Consistent()
      reads this, partition, windows, windowSlots
    {
      ConsistentFor(partition.maps)
    }

    ghost predicate Valid()
      reads this, partition, windows, windowSlots
    {
      Consistent() && QueueExact(lru, windows[..], clock)
    }

    constructor (partition: Partition, size: nat, windowBytes: nat, windowCount: nat)
      requires partition.Valid() && partition.maps == map[] && size <= |partition.bytes|
      ensures Valid() && this.partition == partition && this.size == size && this.windowBytes == Max(4096, windowBytes)
      ensures windows.Length == Max(1, windowCount) && fresh(windows) && fresh(windowSlots)
      ensures forall s :: !Lost(freeWindows, windows[..], s)
    {
      var n: nat := Max(1, windowCount);
      this.partition, this.size, this.windowBytes := partition, size, Max(4096, windowBytes);
      windows := new Window[n](i => NO_WINDOW);
      windowSlots := new int[PageCount(size, Max(4096, windowBytes))](i => -1);
      freeWindows := seq(n, i requires 0 <= i < n => n - 1 - i);
      lru, clock, recency := [], 0, [];
      new;
      forall s: nat | s < n
        ensures s in freeWindows
      {
        assert freeWindows[n - 1 - s] == s;
      }
    }

    /** Remove and return the oldest queue entry. */
    method PopOldest() returns (e: WindowAge)
      requires lru != []
      modifies this`lru
      ensures TakenOut(old(lru), lru, e) && (forall f :: f in old(lru) ==> e.age <= f.age)
      ensures |lru| < |old(lru)|
    {
      var best := 0;
      for i := 0 to |lru|
        invariant 0 <= best < |lru|
        invariant forall j :: 0 <= j < i ==> lru[best].age <= lru[j].age
      {
        if lru[i].age < lru[best].age {
          best := i;
        }
      }
      e := lru[best];
      ghost var before := lru;
      lru := lru[..best] + lru[best + 1..];
      forall f | f in before && f != e
        ensures f in lru
      {
        var j :| 0 <= j < |before| && before[j] == f;
        assert f == if j < best then lru[j] else lru[j - 1];
      }
    }

    /**
     select_victim_window: a free window if there is one; else the least recently touched valid window;
     else, with no window valid, the first one.
     */
    method SelectVictim() returns (victim: nat)
      requires Valid()
      modifies this`freeWindows, this`lru
      ensures Consistent() && victim < windows.Length
      ensures if old(freeWindows) != [] then
          victim == old(freeWindows)[|old(freeWindows)| - 1] && freeWindows == old(freeWindows)[..|old(freeWindows)| - 1]
        else freeWindows == [] && victim == (if recency != [] then recency[0] else 0)
      ensures windows[victim].valid <==> old(freeWindows) == [] && recency != []
      ensures victim !in freeWindows
      ensures QueueExact(lru, windows[..][victim := NO_WINDOW], clock)
    {
      hide TableExact, HandlesExact, QueueExact, FreeExact, RecencyExact;
      if freeWindows != [] {
        FreeSlotTaken(freeWindows, windows[..]);
        victim := freeWindows[|freeWindows| - 1];
        freeWindows := freeWindows[..|freeWindows| - 1];
        ForgottenInQueue(lru, windows[..], clock, victim);
        return;
      }
      if recency != [] {
        LeastRecentIsQueued(lru, windows[..], recency, clock);
      }
      while lru != []
        invariant freeWindows == old(freeWindows) && Consistent()
        invariant QueueExact(lru, windows[..], clock) && (recency == [] || lru != [])
        decreases |lru|
      {
        ghost var before := lru;
        var e := PopOldest();
        QueueNamesWindows(before, windows[..], clock, e);
        if windows[e.slot].valid && windows[e.slot].age == e.age {
          OldestCurrentIsLeastRecent(before, windows[..], recency, clock, e);
          VictimEntryTaken(before, lru, windows[..], clock, e);
          return e.slot;
        }
        StaleEntryDropped(before, lru, windows[..], clock, e);
        if recency != [] {
          LeastRecentIsQueued(lru, windows[..], recency, clock);
        }
      }
      victim := 0;
      NoneRecentNoneValid(windows[..], recency, clock);
      ForgottenInQueue(lru, windows[..], clock, 0);
    }

    lemma EntryOf(s: nat)
      requires TableExact(windowSlots[..], windows[..]) && s < windows.Length && windows[s].valid
      ensures windows[s].page < windowSlots.Length && windowSlots[windows[s].page] == s
    {
      assert windows[..][s].valid;
    }

    /** Forget window `victim`: its table entry, its mapping, its place in the recency order. */
    method Evict(victim: nat)
      requires Consistent() && recency != [] && victim == recency[0] && victim < windows.Length && windows[victim].valid
      modifies this`recency, partition, windows, windowSlots
      ensures Consistent() && recency == old(recency)[1..]
      ensures windows[..] == old(windows[..])[victim := NO_WINDOW]
      ensures windowSlots[..] == old(windowSlots[..])[old(windows[victim].page) := -1]
      ensures partition.failures == old(partition.failures)
    {
      DroppedFirst(recency, windows[..], clock);
      DroppedFromTable(windowSlots[..], windows[..], victim);
      MappingDropped(partition.maps, windows[..], size, windowBytes, victim);
      hide TableExact, RecencyExact, HandlesExact, FreeExact;
      var w := windows[victim];
      assert w.page < windowSlots.Length by {
        EntryOf(victim);
      }
      windowSlots[w.page] := -1;
      partition.Unmap(w.handle);
      windows[victim] := NO_WINDOW;
      recency := recency[1..];
      FreeListKept(freeWindows, old(windows[..]), victim, NO_WINDOW);
      assert windows[..] == old(windows[..])[victim := NO_WINDOW];
      assert windowSlots[..] == old(windowSlots[..])[w.page := -1];
    }

    /** A hit: the window becomes the most recently touched. */
    method Touch(s: nat, prefetch: bool)
      requires Valid() && s < windows.Length && windows[s].valid
      modifies this`clock, this`lru, this`recency, windows
      ensures Valid() && recency == Without(old(recency), s) + [s]
      ensures windows[s].valid && windows[s].page == old(windows[s].page) && windows[s].handle == old(windows[s].handle)
      ensures forall t :: 0 <= t < windows.Length && t != s ==> windows[t] == old(windows[t])
    {
      hide TableExact, HandlesExact, QueueExact, FreeExact, RecencyExact;
      ghost var w := windows[s].(age := clock + 1, prefetched := windows[s].prefetched && prefetch);
      ghost var before := windows[..];
      TouchedLast(recency, before, clock, s, w);
      TouchedInTable(windowSlots[..], before, s, w);
      MappingTouched(partition.maps, before, size, windowBytes, s, w);
      ForgottenInQueue(lru, before, clock, s);
      TouchedInQueue(lru, before, clock, s, w);
      ValidIsNotFree(freeWindows, before, s);
      FreeListKept(freeWindows, before, s, w);
      clock := clock + 1;
      windows[s] := windows[s].(age := clock, prefetched := windows[s].prefetched && prefetch);
      lru := lru + [WindowAge(clock, s)];
      recency := Without(recency, s) + [s];
      assert windows[..] == before[s := w];
    }

    /** Window `v`, empty and off the free list, takes the mapping of page `p`. */
    method Fill(v: nat, p: nat, handle: nat, prefetch: bool, ghost maps: map<nat, Mapping>)
      requires ConsistentFor(maps) && v < windows.Length && !windows[v].valid && v !in freeWindows
      requires QueueExact(lru, windows[..][v := NO_WINDOW], clock)
      requires p < windowSlots.Length && windowSlots[p] == -1 && handle !in maps
      requires partition.maps == maps[handle := PageMapping(p, size, windowBytes)]
      modifies this`clock, this`lru, this`recency, windows, windowSlots
      ensures Valid() && recency == Without(old(recency), v) + [v]
      ensures windows[..] == old(windows[..])[v := Window(true, prefetch, p, clock, handle)] && clock == old(clock) + 1
      ensures windowSlots[..] == old(windowSlots[..])[p := v]
    {
      hide TableExact, HandlesExact, QueueExact, FreeExact, RecencyExact;
      ghost var w := Window(true, prefetch, p, clock + 1, handle);
      ghost var before := windows[..];
      TouchedLast(recency, before, clock, v, w);
      FilledInTable(windowSlots[..], before, v, w);
      MappingAdded(maps, before, size, windowBytes, v, w);
      TouchedInQueue(lru, before, clock, v, w);
      FreeListKept(freeWindows, before, v, w);
      clock := clock + 1;
      windows[v] := Window(true, prefetch, p, clock, handle);
      lru := lru + [WindowAge(clock, v)];
      recency := Without(recency, v) + [v];
      windowSlots[p] := v;
      assert windows[..] == before[v := w];
      assert windowSlots[..] == old(windowSlots[..])[p := v];
    }

    /** Map page `p` into the empty window `v`; on failure the window stays empty and off the free list. */
    method MapInto(v: nat, p: nat, prefetch: bool) returns (ok: bool)
      requires Consistent() && v < windows.Length && !windows[v].valid && v !in freeWindows
      requires QueueExact(lru, windows[..][v := NO_WINDOW], clock)
      requires p < windowSlots.Length ==> windowSlots[p] == -1
      modifies this`clock, this`lru, this`recency, partition, windows, windowSlots
      ensures Valid() && partition.failures >= old(partition.failures)
      ensures PageStart(p, windowBytes) < size ==> partition.failures == old(partition.failures) + (if ok then 0 else 1)
      ensures ok ==> windows[..] == old(windows[..])[v := Window(true, prefetch, p, clock, windows[v].handle)]
      ensures ok ==> recency == Without(old(recency), v) + [v]
      ensures !ok ==> windows[..] == old(windows[..]) && recency == old(recency) && windowSlots[..] == old(windowSlots[..])
    {
      EmptyWindowInQueue(lru, windows[..], clock, v);
      hide TableExact, HandlesExact, QueueExact, FreeExact, RecencyExact;
      var offset := PageStart(p, windowBytes);
      if offset >= size {
        return false;
      }
      PageInRange(p, size, windowBytes);
      ghost var maps := partition.maps;
      var handle;
      ok, handle := partition.Map(offset, Min(windowBytes, size - offset));
      if ok {
        Fill(v, p, handle, prefetch, maps);
      }
    }

    /**
     ensure_window. On a miss with no free window the least recently touched window is unmapped first; if
     the new mapping then fails, the victim stays empty and off the free list.
     */
    method EnsureWindow(p: nat, prefetch: bool) returns (slot: Option<nat>, ghost victim: Option<nat>)
      requires Valid()
      modifies this`clock, this`lru, this`recency, this`freeWindows, partition, windows, windowSlots
      ensures Valid() && partition.failures >= old(partition.failures)
      ensures slot.Some? ==> slot.value < windows.Length && windows[slot.value].valid && windows[slot.value].page == p
      ensures PageStart(p, windowBytes) < size ==> partition.failures == old(partition.failures) + (if slot.Some? then 0 else 1)
      ensures victim.None? <==> p < windowSlots.Length && old(windowSlots[p]) >= 0
      ensures victim.None? ==> slot == Some(old(windowSlots[p])) && freeWindows == old(freeWindows)
      ensures victim.Some? ==> victim.value == VictimOf(old(freeWindows), old(recency)) < windows.Length
      ensures victim.Some? && slot.Some? ==> slot == victim
      ensures slot.Some? ==> recency != [] && recency[|recency| - 1] == slot.value
      ensures slot.None? ==> victim.Some? && Lost(freeWindows, windows[..], victim.value)
      ensures victim.None? ==> forall s: nat :: Lost(freeWindows, windows[..], s) <==> Lost(old(freeWindows), old(windows[..]), s)
      ensures victim.Some? ==>
        LostExactly(old(freeWindows), old(windows[..]), old(recency), freeWindows, windows[..], victim.value, slot.Some?)
    {
      hide TableExact, HandlesExact, QueueExact, FreeExact, RecencyExact, Lost, LostExactly;
      slot, victim := None, None;
      if p < windowSlots.Length {
        EntryRange(p);
      }
      if p < windowSlots.Length && windowSlots[p] >= 0 {
        var s := windowSlots[p];
        Touch(s, prefetch);
        HitLosesNothing(freeWindows, old(windows[..]), windows[..], s);
        return Some(s), None;
      }
      var ok, v := Replace(p, prefetch);
      slot, victim := if ok then Some(v) else None, Some(v);
      if !ok {
        FailedIsLost(freeWindows, windows[..], v);
      }
    }

    /** A miss: the victim is emptied if need be, and takes the page. */
    method Replace(p: nat, prefetch: bool) returns (ok: bool, v: nat)
      requires Valid() && (p < windowSlots.Length ==> windowSlots[p] == -1)
      modifies this`clock, this`lru, this`recency, this`freeWindows, partition, windows, windowSlots
      ensures Valid() && partition.failures >= old(partition.failures)
      ensures v == VictimOf(old(freeWindows), old(recency)) < windows.Length && v !in freeWindows
      ensures PageStart(p, windowBytes) < size ==> partition.failures == old(partition.failures) + (if ok then 0 else 1)
      ensures windows[v].valid == ok && (ok ==> windows[v].page == p && recency != [] && recency[|recency| - 1] == v)
      ensures LostExactly(old(freeWindows), old(windows[..]), old(recency), freeWindows, windows[..], v, ok)
    {
      hide TableExact, HandlesExact, QueueExact, FreeExact, RecencyExact, Lost, LostExactly;
      ghost var clockBefore := clock;
      v := SelectVictim();
      if windows[v].valid {
        Evict(v);
      }
      assert windows[..][v := NO_WINDOW] == old(windows[..])[v := NO_WINDOW];
      assert windowSlots[..] == old(windowSlots[..]) || (p < windowSlots.Length ==> windowSlots[..][p] == -1);
      ok := MapInto(v, p, prefetch);
      MissLoses(old(freeWindows), old(windows[..]), old(recency), freeWindows, windows[..], clockBefore, v, ok);
    }

    /**
     A run of calls: a lost window comes back only if it is the first one, and only when every other window
     is lost by then.
     */
    method EnsureAll(pages: seq<nat>, prefetch: bool) returns (found: seq<bool>)
      requires Valid()
      modifies this`clock, this`lru, this`recency, this`freeWindows, partition, windows, windowSlots
      ensures Valid() && |found| == |pages|
      ensures partition.failures == old(partition.failures) ==>
        forall i :: 0 <= i < |pages| && PageStart(pages[i], windowBytes) < size ==> found[i]
      ensures forall s: nat :: Lost(old(freeWindows), old(windows[..]), s) ==>
        Lost(freeWindows, windows[..], s) || (s == 0 && forall t: nat :: 0 < t < windows.Length ==> Lost(freeWindows, windows[..], t))
    {
      hide TableExact, HandlesExact, QueueExact, FreeExact, RecencyExact, Lost;
      ghost var failures := partition.failures;
      found := [];
      for i := 0 to |pages|
        invariant Valid() && |found| == i && partition.failures >= failures
        invariant partition.failures == failures ==>
          forall j :: 0 <= j < i && PageStart(pages[j], windowBytes) < size ==> found[j]
        invariant forall s: nat :: Lost(old(freeWindows), old(windows[..]), s) ==>
          Lost(freeWindows, windows[..], s) || (s == 0 && forall t: nat :: 0 < t < windows.Length ==> Lost(freeWindows, windows[..], t))
      {
        if freeWindows == [] && recency == [] {
          NothingLeftIsLost(freeWindows, windows[..], recency, clock);
        }
        var slot;
        ghost var victim;
        slot, victim := EnsureWindow(pages[i], prefetch);
        found := found + [slot.Some?];
      }
    }

    /** The byte `i` places into the data of window `s`, read through its mapping. */
    function Deref(s: nat, i: nat): u8
      requires Valid() && s < windows.Length && windows[s].valid && i < PageMapping(windows[s].page, size, windowBytes).length
      reads this, partition, windows, windowSlots
    {
      partition.Deref(windows[s].handle, i)
    }

    /** read_ptr: the window that holds `bytes` bytes from `address`, freshly mapped if need be. */
    method ReadPtr(address: nat, bytes: nat) returns (slot: Option<nat>)
      requires Valid() && 0 < bytes && address + bytes <= size
      modifies this`clock, this`lru, this`recency, this`freeWindows, partition, windows, windowSlots
      ensures Valid() && partition.failures >= old(partition.failures)
      ensures slot.Some? ==> slot.value < windows.Length && windows[slot.value].valid
      ensures slot.Some? ==> windows[slot.value].page == PageOf(address, windowBytes) && OffsetIn(address, windowBytes) + bytes <= windowBytes
      ensures OffsetIn(address, windowBytes) + bytes <= windowBytes ==>
        partition.failures == old(partition.failures) + (if slot.Some? then 0 else 1)
    {
      var page, offset := PageOf(address, windowBytes), OffsetIn(address, windowBytes);
      if offset + bytes > windowBytes {
        return None;
      }
      AddressSplits(address, windowBytes);
      ghost var victim;
      slot, victim := EnsureWindow(page, false);
    }

    /** The bytes of a window are the ROM's. */
    lemma WindowHoldsRom(s: nat, address: nat, i: nat)
      requires Valid() && s < windows.Length && windows[s].valid && windows[s].page == PageOf(address, windowBytes)
      requires address + i < size && OffsetIn(address, windowBytes) + i < windowBytes
      ensures OffsetIn(address, windowBytes) + i < PageMapping(windows[s].page, size, windowBytes).length
      ensures Deref(s, OffsetIn(address, windowBytes) + i) == partition.bytes[address + i]
    {
      AddressSplits(address, windowBytes);
      assert windows[..][s].valid;
    }

    /** read_byte: the flat ROM's byte; 0xFF outside the ROM, or when its window could not be mapped. */
    method ReadByte(address: nat) returns (value: u8)
      requires Valid()
      modifies this`clock, this`lru, this`recency, this`freeWindows, partition, windows, windowSlots
      ensures Valid() && partition.failures >= old(partition.failures)
      ensures address >= size ==> value == 0xFF
      ensures address < size ==> value == if partition.failures > old(partition.failures) then 0xFF else partition.bytes[address]
    {
      if address >= size {
        return 0xFF;
      }
      hide TableExact, HandlesExact, QueueExact, FreeExact, RecencyExact, PageOf, OffsetIn, PageStart;
      var slot := ReadPtr(address, 1);
      AddressSplits(address, windowBytes);
      if slot.None? {
        return 0xFF;
      }
      WindowHoldsRom(slot.value, address, 0);
      hide Valid, Deref, PageOf, OffsetIn, PageStart;
      value := Deref(slot.value, OffsetIn(address, windowBytes));
    }

    /** read16: the flat ROM's half-word, but for 0xFF in the windows, as many as mappings failed, that could not be mapped. */
    method Read16(address: nat) returns (value: u16, ghost missing: set<nat>)
      requires Valid()
      modifies this`clock, this`lru, this`recency, this`freeWindows, partition, windows, windowSlots
      ensures Valid() && windowBytes > 0 && size <= |partition.bytes| && partition.failures >= old(partition.failures)
      ensures address + 2 > size ==> value == 0xFFFF
      ensures address + 2 <= size ==>
        var shown := ShownPages(partition.bytes, windowBytes, missing);
        value == Half(shown[address], shown[address + 1])
      ensures |missing| == partition.failures - old(partition.failures)
    {
      hide Valid, Deref, PageOf, OffsetIn, PageStart, Half, Delivered, ShownPages;
      SizesFit();
      missing := {};
      if address + 2 > size {
        return 0xFFFF, {};
      }
      if OffsetIn(address, windowBytes) + 2 > windowBytes {
        var scratch := new u8[2];
        var ok;
        ok, missing := ReadBytes(address, scratch);
        DeliveredIffShown(scratch[..], partition.bytes, address, windowBytes, missing);
        value := Half(scratch[0], scratch[1]);
        return;
      }
      BothInOneWindow(address);
      var slot := ReadPtr(address, 2);
      missing := if slot.None? then {PageOf(address, windowBytes)} else {};
      ByteIsShown(partition.bytes, windowBytes, address, missing);
      ByteIsShown(partition.bytes, windowBytes, address + 1, missing);
      if slot.None? {
        HalfOfOnes();
        return 0xFFFF, missing;
      }
      WindowHoldsRom(slot.value, address, 0);
      WindowHoldsRom(slot.value, address, 1);
      var o := OffsetIn(address, windowBytes);
      value := Half(Deref(slot.value, o), Deref(slot.value, o + 1));
    }

    lemma BothInOneWindow(address: nat)
      requires windowBytes > 0 && OffsetIn(address, windowBytes) + 2 <= windowBytes
      ensures PageOf(address + 1, windowBytes) == PageOf(address, windowBytes)
    {
      AddressSplits(address, windowBytes);
      NextPageStart(PageOf(address, windowBytes), windowBytes);
      InPage(address + 1, PageOf(address, windowBytes), windowBytes);
    }

    /** One round of read_bytes: the rest of the k-th window, which holds the next byte. */
    method ReadChunk(address: nat, out: array<u8>, copied: nat, ghost k: nat, ghost missing: set<nat>) returns (chunk: nat, ghost failed: bool)
      requires Valid() && windowBytes > 0 && out as object != windowSlots && copied < out.Length
      requires address + out.Length <= size <= |partition.bytes|
      requires PagesCopied(address, windowBytes, out.Length, copied, k)
      requires Delivered(out[..copied], partition.bytes, address, windowBytes, missing)
      requires forall m :: m in missing ==> m < PageOf(address, windowBytes) + k
      modifies this`clock, this`lru, this`recency, this`freeWindows, partition, windows, windowSlots, out
      ensures Valid() && partition.failures >= old(partition.failures)
      ensures 0 < chunk && copied + chunk <= out.Length
      ensures PagesCopied(address, windowBytes, out.Length, copied + chunk, k + 1)
      ensures partition.failures == old(partition.failures) + (if failed then 1 else 0)
      ensures Delivered(out[..copied + chunk], partition.bytes, address, windowBytes,
                        if failed then missing + {PageOf(address, windowBytes) + k} else missing)
    {
      hide Valid, Delivered, IsChunk, PagesCopied, PageOf, OffsetIn, PageStart, Lost, LostExactly;
      ChunkIsOnePage(address, windowBytes, out.Length, copied, k);
      ghost var done := out[..copied];
      chunk := ChunkAt(address + copied, windowBytes, out.Length - copied);
      assert OffsetIn(address + copied, windowBytes) + chunk <= windowBytes;
      AddressSplits(address + copied, windowBytes);
      var data;
      data, failed := LoadChunk(address + copied, chunk);
      DeliveredMore(done, data, partition.bytes, address, windowBytes, missing, PageOf(address, windowBytes) + k, failed);
      Store(out, copied, data);
      assert done + data == out[..copied + chunk];
    }

    /**
     read_bytes: window by window; the bytes of windows that could not be mapped, and no others, are 0xFF. There are
     as many such windows as mappings failed.
     */
    method ReadBytes(address: nat, out: array<u8>) returns (ok: bool, ghost missing: set<nat>)
      requires Valid() && out as object != windowSlots
      modifies this`clock, this`lru, this`recency, this`freeWindows, partition, windows, windowSlots, out
      ensures Valid() && windowBytes > 0 && partition.failures >= old(partition.failures)
      ensures ok == (out.Length == 0 || address + out.Length <= size)
      ensures !ok ==> out[..] == old(out[..])
      ensures ok && out.Length > 0 ==> Delivered(out[..], partition.bytes, address, windowBytes, missing)
      ensures |missing| == partition.failures - old(partition.failures)
    {
      missing := {};
      SizesFit();
      hide Valid, Delivered, PagesCopied, PageOf;
      if out.Length == 0 {
        return true, {};
      }
      if address + out.Length > size {
        return false, {};
      }
      ghost var failures := partition.failures;
      var copied := 0;
      ghost var k := 0;
      NothingDelivered(out[..0], partition.bytes, address, windowBytes);
      NothingCopied(address, windowBytes, out.Length);
      while copied < out.Length
        invariant 0 <= copied <= out.Length && PagesCopied(address, windowBytes, out.Length, copied, k)
        invariant Valid() && partition.failures >= failures
        invariant Delivered(out[..copied], partition.bytes, address, windowBytes, missing)
        invariant forall m :: m in missing ==> m < PageOf(address, windowBytes) + k
        invariant |missing| == partition.failures - failures
        decreases out.Length - copied
      {
        var chunk;
        ghost var failed;
        chunk, failed := ReadChunk(address, out, copied, k, missing);
        missing := if failed then missing + {PageOf(address, windowBytes) + k} else missing;
        copied := copied + chunk;
        k := k + 1;
      }
      assert out[..out.Length] == out[..];
      ok := true;
    }

    lemma SizesFit()
      requires Valid()
      ensures windowBytes > 0 && size <= |partition.bytes|
    {
      hide HandlesExact, TableExact, RecencyExact, FreeExact, QueueExact;
    }

    /** The window that holds `chunk` bytes from `address`, and what they read as. */
    method LoadChunk(address: nat, chunk: nat) returns (data: seq<u8>, ghost failed: bool)
      requires Valid() && windowBytes > 0 && 0 < chunk && address + chunk <= size <= |partition.bytes|
      requires OffsetIn(address, windowBytes) + chunk <= windowBytes && PageStart(PageOf(address, windowBytes), windowBytes) <= address
      modifies this`clock, this`lru, this`recency, this`freeWindows, partition, windows, windowSlots
      ensures Valid() && partition.failures >= old(partition.failures)
      ensures |data| == chunk && IsChunk(data, partition.bytes, address, failed)
      ensures partition.failures == old(partition.failures) + (if failed then 1 else 0)
    {
      hide Valid, PageOf, OffsetIn, PageStart, Lost, LostExactly;
      var slot;
      ghost var victim;
      slot, victim := EnsureWindow(PageOf(address, windowBytes), false);
      failed := slot.None?;
      data := FetchChunk(slot, address, chunk);
    }

    /** The `chunk` bytes from `address` in the window that holds them, or 0xFF when there is no window. */
    method FetchChunk(slot: Option<nat>, address: nat, chunk: nat) returns (data: seq<u8>)
      requires Valid()
      requires slot.Some? ==>
        slot.value < windows.Length && windows[slot.value].valid && windows[slot.value].page == PageOf(address, windowBytes)
      requires address + chunk <= size && OffsetIn(address, windowBytes) + chunk <= windowBytes
      ensures |data| == chunk
      ensures data == if slot.None? then seq(chunk, _ => 0xFF) else partition.bytes[address..address + chunk]
    {
      hide Valid, Deref, PageOf, OffsetIn, PageStart, PageMapping;
      SizesFit();
      if slot.None? {
        return seq(chunk, _ => 0xFF);
      }
      data := [];
      for i := 0 to chunk
        invariant |data| == i && size <= |partition.bytes| && data == partition.bytes[address..address + i]
      {
        WindowHoldsRom(slot.value, address, i);
        data := data + [Deref(slot.value, OffsetIn(address, windowBytes) + i)];
      }
    }

    lemma EntryRange(p: nat)
      requires TableExact(windowSlots[..], windows[..]) && p < windowSlots.Length
      ensures windowSlots[p] >= -1
      ensures windowSlots[p] >= 0 ==>
        windowSlots[p] < windows.Length && windows[windowSlots[p]].valid && windows[windowSlots[p]].page == p
    {
      assert windowSlots[..][p] == windowSlots[p];
    }
  }

  lemma HalfOfOnes()
    ensures Half(0xFF, 0xFF) == 0xFFFF
  {
  }
}
