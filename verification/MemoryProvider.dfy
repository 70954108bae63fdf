/**
 The desktop ROM provider (src/core/rom_provider.cpp): the ROM lies in memory, and a model of a page cache
 counts what such a cache would have hit, missed and prefetched.
 */
module MemoryProvider {
  import opened Basics
  import opened Recency
  import opened DemandAccess

  const PAGE_SIZE: nat := 0x8000
  const NO_PAGE: nat := 0xFFFF_FFFF

  /** Access statistics of one frame (RomAccessStats). */
  datatype Stats = Stats(
    byteReads: nat, cacheHits: nat, cacheMisses: nat, sequentialHits: nat,
    prefetches: nat, prefetchBytes: nat, prefetchMisses: nat, prefetchHits: nat)

  const NO_STATS := Stats(0, 0, 0, 0, 0, 0, 0, 0)

  /** A demand hit counts, and counts as a prefetch hit the first time after the page was prefetched. */
  function CountHit(s: Stats, prefetch: bool, sequential: bool, prefetched: bool): Stats {
    if prefetch then s
    else s.(cacheHits := s.cacheHits + 1,
            sequentialHits := s.sequentialHits + (if sequential then 1 else 0),
            prefetchHits := s.prefetchHits + (if prefetched then 1 else 0))
  }

  function CountMiss(s: Stats, prefetch: bool): Stats {
    if prefetch then s.(prefetchMisses := s.prefetchMisses + 1) else s.(cacheMisses := s.cacheMisses + 1)
  }

  /** A list of the pages seen, each once. */
  function WithSeen(seen: seq<nat>, page: nat): seq<nat> {
    if page in seen then seen else seen + [page]
  }

  /** first, first + 1, ..., `count` pages. */
  function Pages(first: nat, count: nat): seq<nat> {
    if count == 0 then [] else Pages(first, count - 1) + [first + count - 1]
  }

  /** Whether one of `count` touches from page `first` on misses. */
  ghost predicate Missed(trace: seq<nat>, first: nat, count: nat, capacity: nat) {
    count > 0 && (Missed(trace, first, count - 1, capacity) || !Hits(trace + Pages(first, count - 1), first + count - 1, capacity))
  }

  /** How many pages a ROM has. */
  function RomPages(romSize: nat): nat {
    (romSize + PAGE_SIZE - 1) / PAGE_SIZE
  }

  /**
   How many pages are prefetched after a read that ends in page `current`: none unless it streams or has
   missed, none again for the same page unless it has missed, two in a long run, and none beyond the ROM.
   */
  function PagesAhead(romSize: nat, current: nat, run: nat, base: nat, sequential: bool, missed: bool): (n: nat)
    ensures n <= 2
  {
    if (!sequential && !missed) || (!missed && current == base) then 0
    else Min(if run >= 4 then 2 else 1, Max(RomPages(romSize) - current - 1, 0))
  }

  ghost predicate PrefetchesHeld(prefetched: seq<nat>, lru: seq<nat>) {
    Distinct(prefetched) && forall p :: p in prefetched ==> p in lru
  }

  class MemoryRomProvider {
    const romSize: nat
    const capacity: nat
    var lruPages: seq<nat>
    var uniquePages: seq<nat>
    var prefetchedPages: seq<nat>
    var stats: Stats
    var demand: Demand
    var lastPrefetchBase: nat
    /** Every page touched so far, demand or prefetch, and how many were before this frame. */
    ghost var trace: seq<nat>
    ghost var frameStart: nat

    /**
     The list holds the last `capacity` distinct pages of the trace; pages counted as prefetched are among
     them; the misses counted are those of the frame's touches; and within a frame every prefetch hit was
     paid for by a prefetch miss.
     */
    ghost predicate Valid()
      reads this`prefetchedPages, this`lruPages, this`stats, this`trace, this`frameStart
    {
      && lruPages == Suffix(Order(trace), capacity)
      && frameStart <= |trace| && stats.cacheMisses + stats.prefetchMisses == Misses(trace, frameStart, capacity)
      && Accounted()
    }

    ghost predicate Accounted()
      reads this`prefetchedPages, this`lruPages, this`stats
    {
      PrefetchesHeld(prefetchedPages, lruPages) && stats.prefetchHits + |prefetchedPages| <= stats.prefetchMisses
    }

    constructor (romSize: nat, capacity: nat)
      ensures Valid() && trace == [] && stats == NO_STATS && this.romSize == romSize && this.capacity == capacity
      ensures demand == NO_DEMAND && lastPrefetchBase == NO_PAGE
    {
      this.romSize, this.capacity := romSize, capacity;
      lruPages, uniquePages, prefetchedPages, trace, frameStart := [], [], [], [], 0;
      stats, demand, lastPrefetchBase := NO_STATS, NO_DEMAND, NO_PAGE;
    }

    /** reset_frame_stats: counters and access pattern are forgotten, the cache itself is not. */
    method ResetFrameStats()
      requires Valid()
      modifies this
      ensures Valid() && trace == old(trace) && lruPages == old(lruPages) && frameStart == |trace|
      ensures uniquePages == [] == prefetchedPages && stats == NO_STATS && demand == NO_DEMAND && lastPrefetchBase == NO_PAGE
    {
      hide Order, Suffix;
      uniquePages, prefetchedPages := [], [];
      stats, demand, lastPrefetchBase := NO_STATS, NO_DEMAND, NO_PAGE;
      frameStart := |trace|;
    }

    /** The least recently touched page leaves the list, and the prefetched pages. */
    method EvictFirst()
      requires lruPages != [] && PrefetchesHeld(prefetchedPages, lruPages)
      modifies this`lruPages, this`prefetchedPages
      ensures lruPages == old(lruPages)[1..] && |prefetchedPages| <= |old(prefetchedPages)|
      ensures PrefetchesHeld(prefetchedPages, lruPages)
    {
      hide Distinct, Without;
      var evicted := lruPages[0];
      WithoutKeeps(prefetchedPages, evicted);
      WithoutMembers(prefetchedPages, evicted);
      assert lruPages == [evicted] + lruPages[1..];
      lruPages := lruPages[1..];
      if evicted in prefetchedPages {
        prefetchedPages := Without(prefetchedPages, evicted);
      }
    }

    method TouchHeld(page: nat, prefetch: bool, sequential: bool)
      requires page in lruPages && Accounted() && capacity > 0
      modifies this`lruPages, this`prefetchedPages, this`stats
      ensures Accounted() && lruPages == TouchCache(old(lruPages), page, capacity)
      ensures stats == CountHit(old(stats), prefetch, sequential, page in old(prefetchedPages))
    {
      hide Distinct, Without;
      WithoutMembers(lruPages, page);
      if !prefetch {
        stats := stats.(cacheHits := stats.cacheHits + 1);
        if sequential {
          stats := stats.(sequentialHits := stats.sequentialHits + 1);
        }
        if page in prefetchedPages {
          WithoutKeeps(prefetchedPages, page);
          WithoutMembers(prefetchedPages, page);
          stats := stats.(prefetchHits := stats.prefetchHits + 1);
          prefetchedPages := Without(prefetchedPages, page);
        }
      }
      lruPages := Without(lruPages, page) + [page];
    }

    method TouchNew(page: nat, prefetch: bool)
      requires page !in lruPages && Accounted() && capacity > 0
      modifies this`lruPages, this`prefetchedPages, this`stats
      ensures Accounted() && lruPages == TouchCache(old(lruPages), page, capacity)
      ensures stats == CountMiss(old(stats), prefetch)
    {
      hide Distinct;
      if prefetch {
        DistinctSnoc(prefetchedPages, page);
        stats := stats.(prefetchMisses := stats.prefetchMisses + 1);
        prefetchedPages := prefetchedPages + [page];
      } else {
        stats := stats.(cacheMisses := stats.cacheMisses + 1);
      }
      lruPages := lruPages + [page];
      if |lruPages| > capacity {
        EvictFirst();
      }
    }

    /** The cache part of touch_page. */
    method TouchCachePage(page: nat, prefetch: bool, sequential: bool) returns (hit: bool)
      requires Accounted() && capacity > 0
      modifies this`lruPages, this`prefetchedPages, this`stats
      ensures Accounted() && lruPages == TouchCache(old(lruPages), page, capacity)
      ensures hit <==> page in old(lruPages)
      ensures stats == if hit then CountHit(old(stats), prefetch, sequential, page in old(prefetchedPages)) else CountMiss(old(stats), prefetch)
    {
      hide TouchCache, CountHit, CountMiss, Accounted;
      hit := page in lruPages;
      if hit {
        TouchHeld(page, prefetch, sequential);
      } else {
        TouchNew(page, prefetch);
      }
    }

    /** touch_page: a hit iff the page is among the last `capacity` distinct ones touched. */
    method TouchPage(page: nat, prefetch: bool, sequential: bool) returns (hit: bool)
      requires Valid() && capacity > 0
      modifies this`lruPages, this`uniquePages, this`prefetchedPages, this`stats, this`trace
      ensures Valid() && trace == old(trace) + [page]
      ensures hit <==> Hits(old(trace), page, capacity)
      ensures stats == if hit then CountHit(old(stats), prefetch, sequential, page in old(prefetchedPages)) else CountMiss(old(stats), prefetch)
      ensures uniquePages == if prefetch then old(uniquePages) else WithSeen(old(uniquePages), page)
    {
      hide Order, Suffix, TouchedSince, TouchCache, WithSeen, Accounted, Misses;
      CacheStep(trace, page, capacity);
      HeldIffFewTouchedSince(trace, page, capacity);
      OneTouchMore(trace, page, frameStart, capacity);
      if !prefetch {
        uniquePages := WithSeen(uniquePages, page);
      }
      hit := TouchCachePage(page, prefetch, sequential);
      trace := trace + [page];
    }

    /** note_demand_access */
    method NoteDemandAccess(address: u32, bytes: nat) returns (sequential: bool)
      modifies this`demand
      ensures demand == Noted(old(demand), Access(address, bytes))
      ensures sequential == Follows(old(demand), Access(address, bytes))
    {
      sequential := demand.seen && address == demand.end;
      var run := if sequential then (demand.run + 1) % WORD_RANGE else 0;
      demand := Demand(true, (address + bytes) % WORD_RANGE, run);
    }

    /** Touch `count` pages from `first` on; whether one of them missed. */
    method TouchPages(first: nat, count: nat, prefetch: bool, sequential: bool) returns (hadMiss: bool)
      requires Valid() && capacity > 0
      modifies this`lruPages, this`uniquePages, this`prefetchedPages, this`stats, this`trace
      ensures Valid() && trace == old(trace) + Pages(first, count) && stats.byteReads == old(stats).byteReads
      ensures hadMiss <==> Missed(old(trace), first, count, capacity)
    {
      hide Valid, Hits;
      hadMiss := false;
      for k := 0 to count
        invariant Valid() && trace == old(trace) + Pages(first, k) && stats.byteReads == old(stats).byteReads
        invariant hadMiss <==> Missed(old(trace), first, k, capacity)
      {
        var hit := TouchPage(first + k, prefetch, sequential);
        hadMiss := hadMiss || !hit;
      }
    }

    method PrefetchPage(page: nat)
      requires Valid() && capacity > 0
      modifies this`lruPages, this`uniquePages, this`prefetchedPages, this`stats, this`trace
      ensures Valid() && trace == old(trace) + [page] && stats.byteReads == old(stats).byteReads
    {
      hide Order, Suffix, PrefetchesHeld, Misses;
      stats := stats.(prefetches := stats.prefetches + 1, prefetchBytes := stats.prefetchBytes + PAGE_SIZE);
      var hit := TouchPage(page, true, false);
    }

    /** maybe_prefetch_after_read; `currentPage` is the page the read ended in. */
    method MaybePrefetchAfterRead(currentPage: nat, sequential: bool, hadMiss: bool) returns (ghost ahead: nat)
      requires Valid() && capacity > 0
      modifies this`lruPages, this`uniquePages, this`prefetchedPages, this`stats, this`trace, this`lastPrefetchBase
      ensures Valid() && trace == old(trace) + Pages(currentPage + 1, ahead) && stats.byteReads == old(stats).byteReads
      ensures ahead == PagesAhead(romSize, currentPage, demand.run, old(lastPrefetchBase), sequential, hadMiss)
      ensures lastPrefetchBase == if sequential || hadMiss then currentPage else old(lastPrefetchBase)
    {
      hide Valid, RomPages;
      if !sequential && !hadMiss {
        return 0;
      }
      if !hadMiss && currentPage == lastPrefetchBase {
        return 0;
      }
      lastPrefetchBase := currentPage;
      var pagesAhead := if demand.run >= 4 then 2 else 1;
      var k := 0;
      while k < pagesAhead
        invariant 0 <= k <= pagesAhead <= 2 && lastPrefetchBase == currentPage
        invariant Valid() && trace == old(trace) + Pages(currentPage + 1, k) && stats.byteReads == old(stats).byteReads
        invariant k > 0 ==> currentPage + k < RomPages(romSize)
      {
        var page := currentPage + 1 + k;
        PageInRom(page, romSize);
        if page * PAGE_SIZE >= romSize {
          break;
        }
        PrefetchPage(page);
        k := k + 1;
      }
      ahead := k;
    }

    /** The counting that touch_range does before it touches any page. */
    method CountRead(address: u32, bytes: nat, prefetch: bool) returns (sequential: bool)
      requires Valid()
      modifies this`stats, this`demand
      ensures Valid()
      ensures prefetch ==> !sequential && demand == old(demand) && stats.byteReads == old(stats).byteReads
      ensures !prefetch ==> sequential == Follows(old(demand), Access(address, bytes))
      ensures !prefetch ==> demand == Noted(old(demand), Access(address, bytes)) && stats.byteReads == old(stats).byteReads + bytes
    {
      hide Order, Suffix, PrefetchesHeld, Misses;
      sequential := false;
      if prefetch {
        stats := stats.(prefetches := stats.prefetches + 1, prefetchBytes := stats.prefetchBytes + bytes);
      } else {
        sequential := NoteDemandAccess(address, bytes);
        stats := stats.(byteReads := stats.byteReads + bytes);
      }
    }

    /**
     touch_range: a read touches its pages in order, then none, one or two pages ahead; a prefetch touches
     its pages alone. Without a cache to model, reads are only counted.
     */
    method TouchRange(address: u32, bytes: nat, prefetch: bool) returns (ghost ahead: nat)
      requires Valid()
      modifies this
      ensures Valid() && frameStart == old(frameStart)
      ensures capacity == 0 || bytes == 0 ==> trace == old(trace) && demand == old(demand) && ahead == 0
      ensures capacity > 0 && bytes > 0 ==>
        var last := LastPage(address, bytes); var met := PagesOfRange(address, bytes);
        && trace == old(trace) + met + Pages(last + 1, ahead)
        && demand == (if prefetch then old(demand) else Noted(old(demand), Access(address, bytes)))
        && ahead == (if prefetch then 0 else
             PagesAhead(romSize, last, demand.run, old(lastPrefetchBase), Follows(old(demand), Access(address, bytes)),
                        Missed(old(trace), address / PAGE_SIZE, |met|, capacity)))
      ensures stats.byteReads == old(stats).byteReads + if prefetch then 0 else bytes
    {
      hide Valid, Pages, LastPage, PagesAhead, Missed, Follows;
      ahead := 0;
      if capacity == 0 || bytes == 0 {
        if !prefetch {
          CountOnly(bytes);
        }
        return;
      }
      var sequential := CountRead(address, bytes, prefetch);
      var first, last := address / PAGE_SIZE, LastPage(address, bytes);
      LastPageFollows(address, bytes);
      PagesLength(first, last + 1 - first);
      var hadMiss := TouchPages(first, last + 1 - first, prefetch, sequential);
      if !prefetch {
        ahead := MaybePrefetchAfterRead(last, sequential, hadMiss);
      } else {
        NoPages(last + 1);
      }
    }

    method CountOnly(bytes: nat)
      requires Valid()
      modifies this`stats
      ensures Valid() && stats.byteReads == old(stats).byteReads + bytes
    {
      hide Order, Suffix, PrefetchesHeld, Misses;
      stats := stats.(byteReads := stats.byteReads + bytes);
    }

    /** On the same touches, a provider with more pages holds all that one with fewer holds, and has missed no more often. */
    lemma MorePagesMissNoMore(other: MemoryRomProvider)
      requires Valid() && other.Valid() && capacity <= other.capacity
      requires trace == other.trace && frameStart == other.frameStart
      ensures lruPages == Suffix(other.lruPages, capacity)
      ensures other.stats.cacheMisses + other.stats.prefetchMisses <= stats.cacheMisses + stats.prefetchMisses
    {
      hide Suffix, Order, Accounted, Misses;
      LargerCacheMissesNoMore(trace, frameStart, capacity, other.capacity);
    }
  }

  lemma PageInRom(page: nat, romSize: nat)
    ensures page * PAGE_SIZE < romSize <==> page < RomPages(romSize)
  {
  }

  lemma {:induction false} PagesLength(first: nat, count: nat)
    ensures |Pages(first, count)| == count
  {
    if count > 0 {
      PagesLength(first, count - 1);
    }
  }

  /** The page a read of `bytes` bytes ends in. */
  function LastPage(address: nat, bytes: nat): nat {
    if bytes == 0 then address / PAGE_SIZE else (address + bytes - 1) / PAGE_SIZE
  }

  lemma LastPageFollows(address: nat, bytes: nat)
    ensures address / PAGE_SIZE <= LastPage(address, bytes)
  {
  }

  /** The pages that a read of `bytes` bytes meets, in order. */
  function PagesOfRange(address: nat, bytes: nat): seq<nat> {
    LastPageFollows(address, bytes);
    if bytes == 0 then [] else Pages(address / PAGE_SIZE, LastPage(address, bytes) + 1 - address / PAGE_SIZE)
  }

  lemma NoPages(first: nat)
    ensures Pages(first, 0) == []
  {
  }

  lemma HeldIffFewTouchedSince(trace: seq<nat>, page: nat, capacity: nat)
    ensures page in Suffix(Order(trace), capacity) <==> Hits(trace, page, capacity)
  {
    if page in trace {
      AmongLastIffFewTouchedSince(trace, page, capacity);
    } else {
      OrderIsDistinct(trace);
      if page in Suffix(Order(trace), capacity) {
        SuffixMembers(Order(trace), capacity, page);
      }
    }
  }

  lemma DistinctSnoc(s: seq<nat>, x: nat)
    requires Distinct(s) && x !in s
    ensures Distinct(s + [x])
  {
    Snoc(s, x);
  }
}
