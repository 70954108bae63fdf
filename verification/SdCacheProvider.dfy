/** The SD-card ROM provider as an object: Esp32SdCacheRomProvider. */
module SdCacheProvider {
  import opened Basics
  import opened RomBytes
  import opened SdCachePages
  import opened SdCacheState
  import opened SdCacheRuns
  import opened DemandAccess

  /**
   The ROM file on the card. Seeks and reads may fail; `failures` counts those that did. The file may be shorter
   than the ROM it is said to hold: `bytes` is that ROM, all ones from byte `stored` on.
   */
  class RomFile {
    const bytes: seq<u8>
    const stored: nat
    var position: nat
    ghost var failures: nat

    constructor (content: seq<u8>, size: nat)
      ensures |bytes| == size && stored == Min(|content|, size) && position == 0 && failures == 0
      ensures forall i | 0 <= i < size :: bytes[i] == if i < stored then content[i] else 0xFF
    {
      bytes := seq(size, i requires 0 <= i => if i < |content| then content[i] else 0xFF);
      stored, position, failures := Min(|content|, size), 0, 0;
    }

    ghost predicate Padded() {
      stored <= |bytes| && forall i | stored <= i < |bytes| :: bytes[i] == 0xFF
    }

    method Seek(offset: nat) returns (ok: bool)
      modifies this
      ensures if ok then position == offset && failures == old(failures) else failures == old(failures) + 1
    {
      ok := *;
      if ok {
        position := offset;
      } else {
        position := *;
        failures := failures + 1;
      }
    }

    /**
     Reads `count` bytes into a row of the buffer, fewer where the file ends. A failed read has stored some
     prefix; what follows it in the row may be anything.
     */
    method Read(buffer: array2<u8>, row: nat, count: nat) returns (got: nat, error: bool)
      requires row < buffer.Length0 && count <= buffer.Length1 && position + count <= |bytes|
      modifies this, buffer
      ensures got <= count && (got < count && !error ==> old(position) + got >= stored)
      ensures failures == old(failures) + (if got < count && error then 1 else 0)
      ensures forall o :: 0 <= o < got ==> buffer[row, o] == bytes[old(position) + o]
      ensures forall r, o :: 0 <= r < buffer.Length0 && 0 <= o < buffer.Length1 && r != row ==> buffer[r, o] == old(buffer[r, o])
    {
      got :| 0 <= got <= count;
      error := *;
      error := error || (got < count && position + got < stored);
      forall o | 0 <= o < buffer.Length1 {
        buffer[row, o] := if o < got then bytes[position + o] else 0;
      }
      position := position + got;
      if got < count && error {
        failures := failures + 1;
      }
    }
  }

  /** A pointer into the cache buffer. */
  datatype Pointer = Pointer(row: nat, offset: nat)

  class SdCacheRomProvider {
    const file: RomFile
    const size: nat
    const pageBytes: nat
    const cache: array2<u8>
    const pageSlots: array<int>
    const pages: array<Page>
    const maxPinned: nat
    var clock: nat
    var pinnedPages: nat
    var demand: Demand
    var lastPrefetchBase: nat
    /** The pages whose load has failed, one entry per failure. */
    ghost var lost: seq<nat>

    ghost function State(): Cached
      reads this, pageSlots, pages
    {
      Cached(size, pageBytes, pageSlots[..], pages[..], clock, demand, lastPrefetchBase)
    }

    /** Row `s` of the cache holds page `p` of the ROM, padded with 0xFF after its end. */
    ghost predicate Holds(s: nat, p: nat)
      requires s < cache.Length0
      reads cache
    {
      forall o :: 0 <= o < cache.Length1 ==> cache[s, o] == PageByte(file.bytes, pageBytes, p, o)
    }

    ghost predicate RowsHold()
      requires pages.Length == cache.Length0 && TableExact(pageSlots[..], pages[..])
      reads pageSlots, pages, cache
    {
      forall p :: 0 <= p < pageSlots.Length && pageSlots[p] >= 0 ==> Holds(pageSlots[p], p)
    }

    /** What every reachable state satisfies, whatever has failed so far. */
    ghost predicate Valid()
      reads this, file, cache, pageSlots, pages
    {
      && Shaped(State()) && size == |file.bytes| && file.Padded()
      && cache.Length0 == pages.Length && cache.Length1 == pageBytes
      && maxPinned == MaxPinned(pages.Length) && pinnedPages == PinnedCount(pages[..])
      && RowsHold()
    }

    constructor (file: RomFile, pageBytes: nat, pageCount: nat)
      requires |file.bytes| > 0 && file.Padded() && pageBytes > 0
      ensures Valid() && this.file == file && State() == Empty(|file.bytes|, pageBytes, Max(1, pageCount))
      ensures fresh(cache) && fresh(pageSlots) && fresh(pages)
    {
      var n: nat := Max(1, pageCount);
      this.file, size, this.pageBytes := file, |file.bytes|, pageBytes;
      cache := new u8[n, pageBytes]((i, j) => 0);
      pageSlots := new int[PageCount(|file.bytes|, pageBytes)](i => -1);
      pages := new Page[n](i => EMPTY_PAGE);
      maxPinned := MaxPinned(n);
      clock, pinnedPages, demand, lastPrefetchBase, lost := 0, 0, NO_DEMAND, NO_PAGE, [];
      new;
      NothingPinned(pages[..]);
      EmptyIsShaped(size, pageBytes, n);
      hide Shaped, PinnedCount;
      assert State() == Empty(|file.bytes|, pageBytes, n);
    }

    /** The slot ensure_page_slow will replace. */
    method SelectVictim() returns (victim: nat)
      requires Valid()
      ensures IsVictim(pages[..], victim) && pages.Length > 0 && victim == Victim(pages[..])
    {
      victim := 0;
      var foundUnpinned := false;
      hide RowsHold, TableExact, PinnedCount;
      for s := 0 to pages.Length
        invariant victim < pages.Length
        invariant AllValid(pages[..s])
        invariant foundUnpinned ==> !pages[victim].pinned && victim < s
        invariant foundUnpinned ==> forall t :: 0 <= t < s && !pages[t].pinned ==> pages[victim].age <= pages[t].age
        invariant !foundUnpinned ==> victim == 0 && AllPinned(pages[..s])
      {
        if !pages[s].valid {
          victim := s;
          VictimIsUnique(pages[..], clock, victim);
          return;
        }
        if !pages[s].pinned {
          if !foundUnpinned || pages[s].age < pages[victim].age {
            victim := s;
            foundUnpinned := true;
          }
        }
      }
      assert pages[..pages.Length] == pages[..];
      if !foundUnpinned {
        victim := 0;
        for s := 0 to pages.Length
          invariant victim < pages.Length
          invariant forall t :: 0 <= t < s ==> pages[victim].age <= pages[t].age
        {
          if pages[s].age < pages[victim].age {
            victim := s;
          }
        }
      }
      VictimIsUnique(pages[..], clock, victim);
    }

    /** A hit refreshes the slot's age; a demand hit also warms it. */
    method EnsurePageFast(p: nat, prefetch: bool) returns (slot: Option<nat>)
      requires Valid()
      modifies pages, this`clock, this`pinnedPages
      ensures Valid()
      ensures slot == if Hit(old(State()), p) then Some(old(State()).table[p]) else None
      ensures State() == if slot.Some? then AfterHit(old(State()), p, prefetch) else old(State())
    {
      slot := None;
      if p < pageSlots.Length {
        var s := pageSlots[p];
        if s >= 0 {
          ghost var before := State();
          PinnedCountAt(pages[..], s, AfterHit(before, p, prefetch).pages[s]);
          HitKeepsShape(before, p, prefetch);
          if !prefetch {
            pages[s] := pages[s].(prefetched := false);
            HeatPage(s);
          }
          clock := clock + 1;
          pages[s] := pages[s].(age := clock);
          assert pages[..] == AfterHit(before, p, prefetch).pages;
          hide Shaped, PinnedCount, Holds, Touched;
          slot := Some(s);
        }
      }
    }

    /** heat_page */
    method HeatPage(s: nat)
      requires s < pages.Length
      modifies pages, this`pinnedPages
      ensures pages[..] == old(pages[..])[s := Heated(old(pages[s]), old(pinnedPages), maxPinned)]
      ensures pinnedPages + Bit(old(pages[s].pinned)) == old(pinnedPages) + Bit(pages[s].pinned)
    {
      var page := pages[s];
      if page.hotScore < PIN_THRESHOLD {
        page := page.(hotScore := page.hotScore + 1);
      }
      if !page.pinned && page.hotScore >= PIN_THRESHOLD && pinnedPages < maxPinned {
        page := page.(pinned := true);
        pinnedPages := pinnedPages + 1;
      }
      pages[s] := page;
    }

    /** Drop the page table entry that refers to slot `v`, if there is one. */
    method Unlink(v: nat)
      requires Valid() && v < pages.Length
      modifies pageSlots
      ensures Valid() && v !in pageSlots[..]
      ensures pageSlots[..] == Forget(old(pageSlots[..]), v)
    {
      ForgetKeepsShape(State(), v);
      var page := pages[v];
      if page.valid && page.index < pageSlots.Length && pageSlots[page.index] == v {
        pageSlots[page.index] := -1;
      }
      assert pageSlots[..] == Forget(old(pageSlots[..]), v);
      hide PagesExact, PinnedCount, Holds;
    }

    /** Read page `p` into row `v`, padding with 0xFF; false when the seek or the read failed. */
    method LoadRow(v: nat, p: nat) returns (ok: bool)
      requires Valid() && v < pages.Length && PageStart(p, pageBytes) < size
      modifies file, cache
      ensures ok ==> Holds(v, p)
      ensures file.failures >= old(file.failures) && (ok <==> file.failures == old(file.failures))
      ensures forall r, o :: 0 <= r < cache.Length0 && 0 <= o < cache.Length1 && r != v ==> cache[r, o] == old(cache[r, o])
    {
      var offset := PageStart(p, pageBytes);
      ok := file.Seek(offset);
      if !ok {
        return;
      }
      hide PinnedCount, PagesExact, TableExact, RowsHold;
      var remaining := Min(pageBytes, size - offset);
      var got, error := file.Read(cache, v, remaining);
      if got != remaining && error {
        return false;
      }
      forall o | got <= o < pageBytes {
        cache[v, o] := 0xFF;
      }
    }

    /** Rows without a page table entry may change freely. */
    twostate lemma UnlinkedRowMayChange(v: nat)
      requires old(Valid()) && v < pages.Length && v !in pageSlots[..]
      requires unchanged(this) && unchanged(pageSlots) && unchanged(pages)
      requires forall r, o :: 0 <= r < cache.Length0 && 0 <= o < cache.Length1 && r != v ==> cache[r, o] == old(cache[r, o])
      ensures Valid()
    {
      assert pageSlots[..] == old(pageSlots[..]) && pages[..] == old(pages[..]);
      forall q | 0 <= q < pageSlots.Length && pageSlots[q] >= 0
        ensures Holds(pageSlots[q], q)
      {
        var row := pageSlots[..][q];
        assert old(Holds(pageSlots[q], q));
      }
      hide PagesExact, PinnedCount, Holds;
    }

    /** Rows other than `v` are as they were. */
    twostate predicate OtherRowsKept(v: nat)
      reads cache
    {
      forall r, o :: 0 <= r < cache.Length0 && 0 <= o < cache.Length1 && r != v ==> cache[r, o] == old(cache[r, o])
    }

    /**
     A miss replaces the victim's contents. A failed seek or read leaves the victim without a page table
     entry, so its damaged row is never served.
     */
    method EnsurePageSlow(p: nat, prefetch: bool) returns (slot: Option<nat>)
      requires Valid()
      modifies file, cache, pageSlots, pages, this`clock, this`pinnedPages, this`lost
      ensures Valid() && file.failures >= old(file.failures)
      ensures lost == old(lost) + (if file.failures > old(file.failures) then [p] else [])
      ensures p >= pageSlots.Length ==> slot.None? && file.failures == old(file.failures) && State() == old(State()) && OtherRowsKept(pages.Length)
      ensures p < pageSlots.Length ==> (slot.Some? <==> file.failures == old(file.failures)) && pages.Length > 0
      ensures p < pageSlots.Length ==>
        var v := Victim(old(pages[..])); var before := old(State());
        && OtherRowsKept(v)
        && (if slot.Some? then slot.value == v && State() == AfterLoad(before, p, v, prefetch)
            else State() == before.(table := Forget(before.table, v)))
    {
      slot := None;
      ghost var before := State();
      PageInRange(p, size, pageBytes);
      var v := SelectVictim();
      if PageStart(p, pageBytes) >= size {
        return;
      }
      hide Shaped, RowsHold, PinnedCount;
      Unlink(v);
      label linked:
      var ok := LoadRow(v, p);
      UnlinkedRowMayChange@linked(v);
      if ok {
        Install(v, p, prefetch, before);
        slot := Some(v);
      } else {
        lost := lost + [p];
      }
    }

    /** Slot `v`, whose row has just been read, becomes page `p`. */
    method Install(v: nat, p: nat, prefetch: bool, ghost before: Cached)
      requires Valid() && v < pages.Length && v !in pageSlots[..] && p < pageSlots.Length && Holds(v, p)
      requires Shaped(before) && State() == before.(table := Forget(before.table, v))
      modifies pageSlots, pages, this`clock, this`pinnedPages
      ensures Valid() && State() == AfterLoad(before, p, v, prefetch)
    {
      hide PagesExact, TableExact, PinnedCount, Holds;
      ghost var after := AfterLoad(before, p, v, prefetch);
      LoadKeepsShape(before, p, v, prefetch);
      PinnedCountAt(pages[..], v, after.pages[v]);
      if pages[v].pinned {
        PinnedMeansCounted(pages[..], v);
        PinnedMeansValid(pages[..], clock, v);
      }
      if pages[v].valid && pages[v].pinned && pinnedPages != 0 {
        pinnedPages := pinnedPages - 1;
      }
      clock := clock + 1;
      pages[v] := Loaded(p, prefetch, clock);
      pageSlots[p] := v;
      assert pages[..] == after.pages && pageSlots[..] == after.table;
      assert State() == after;
    }

    /** The page is in the cache, or is loaded. */
    method EnsurePage(p: nat, prefetch: bool) returns (slot: Option<nat>, hit: bool)
      requires Valid()
      modifies file, cache, pageSlots, pages, this`clock, this`pinnedPages, this`lost
      ensures Valid() && pages.Length > 0 && file.failures >= old(file.failures)
      ensures lost == old(lost) + (if file.failures > old(file.failures) then [p] else [])
      ensures hit <==> Hit(old(State()), p)
      ensures file.failures == old(file.failures) ==> State() == WithPage(old(State()), p, prefetch)
      ensures slot.Some? <==> p < pageSlots.Length && file.failures == old(file.failures)
      ensures slot.Some? ==> slot.value == SlotFor(old(State()), p) && Holds(slot.value, p)
      ensures slot.None? ==> State() == old(State()).(table := pageSlots[..]) && !hit
      ensures OtherRowsKept(if hit || p >= pageSlots.Length then pages.Length else SlotFor(old(State()), p))
    {
      ShapedIsReal(State());
      slot := EnsurePageFast(p, prefetch);
      hit := slot.Some?;
      hide Shaped, PinnedCount, Victim;
      if !hit {
        slot := EnsurePageSlow(p, prefetch);
      }
    }

    /** note_demand_access */
    method NoteDemandAccess(address: u32, bytes: nat) returns (sequential: bool)
      requires Valid()
      modifies this`demand
      ensures Valid()
      ensures demand == Noted(old(demand), Access(address, bytes)) && sequential == Follows(old(demand), Access(address, bytes))
    {
      PatternIsFree(State(), Noted(demand, Access(address, bytes)), lastPrefetchBase);
      hide Shaped, PinnedCount, Holds;
      sequential := demand.seen && address == demand.end;
      var run := if sequential then (demand.run + 1) % WORD_RANGE else 0;
      demand := Demand(true, (address + bytes) % WORD_RANGE, run);
    }

    /** Slot `keep` was the last one touched. */
    ghost predicate MostRecent(keep: nat)
      reads this, pages
    {
      keep < pages.Length && pages[keep].valid && pages[keep].age == clock
    }

    /** The row of slot `keep` holds the page that the slot's record names. */
    ghost predicate RowNamed(keep: nat)
      reads cache, pages
    {
      keep < pages.Length && keep < cache.Length0 && Holds(keep, pages[keep].index)
    }

    /** With four slots or more, slot `keep` has at most `n` newer neighbours. */
    ghost predicate Spared(keep: nat, n: nat)
      reads pages
    {
      pages.Length >= 4 && keep < pages.Length && pages[keep].valid && |NewerThan(pages[..], keep)| <= n
    }

    /**
     One prefetch. Row `keep` goes on holding what its record names unless the load of another page into it
     fails; a spared slot is left alone.
     */
    method PrefetchPage(page: nat, ghost keep: nat)
      requires Valid()
      modifies file, cache, pageSlots, pages, this`clock, this`pinnedPages, this`lost
      ensures Valid() && file.failures >= old(file.failures)
      ensures lost == old(lost) + (if file.failures > old(file.failures) then [page] else [])
      ensures pages.Length > 0 && (file.failures == old(file.failures) ==> State() == WithPage(old(State()), page, true))
      ensures old(RowNamed(keep)) && (old(Spared(keep, 1)) || file.failures == old(file.failures)) ==> RowNamed(keep)
      ensures forall n: nat :: n <= 1 && old(Spared(keep, n)) ==> Spared(keep, n + 1) && pages[keep].index == old(pages[keep].index)
    {
      ghost var before := State();
      ShapedIsReal(before);
      if Spared(keep, 1) {
        SparesOnce(before, keep, page);
        RecentSlotIsNeverReplaced(before.pages, keep);
      }
      ghost var after := WithPage(before, page, true);
      ghost var s := SlotFor(before, page);
      assert (Hit(before, page) || page < |before.table|) ==> after.pages == before.pages[s := after.pages[s]];
      assert Hit(before, page) ==> after.pages[s].index == before.pages[s].index;
      assert !Hit(before, page) && page < |before.table| ==> after.pages[s].index == page && IsVictim(before.pages, s);
      assert !Hit(before, page) && page >= |before.table| ==> after == before;
      hide Shaped, RowsHold, PinnedCount, NewerThan, WithPage, SlotFor, Hit, IsVictim;
      var slot, hit := EnsurePage(page, true);
      assert old(RowNamed(keep)) ==> old(Holds(keep, pages[keep].index));
    }

    /**
     maybe_prefetch_after_read: with four slots or more the slot touched last before the call still holds
     the same page after it, whatever fails.
     */
    method MaybePrefetchAfterRead(address: u32, bytes: nat, streaming: bool, hadMiss: bool, ghost keep: nat)
      requires Valid()
      modifies file, cache, pageSlots, pages, this`clock, this`pinnedPages, this`lost, this`lastPrefetchBase
      ensures Valid() && file.failures >= old(file.failures)
      ensures pages.Length > 0 && pageBytes > 0
      ensures LostFrom(old(lost), lost, LastPage(address + bytes, pageBytes) + 1)
      ensures file.failures == old(file.failures) ==>
        lost == old(lost) && State() == AfterPrefetch(old(State()), LastPage(address + bytes, pageBytes), streaming, hadMiss)
      ensures file.failures == old(file.failures) && old(RowNamed(keep)) ==> RowNamed(keep)
      ensures pages.Length >= 4 && old(MostRecent(keep) && RowNamed(keep)) ==>
        RowNamed(keep) && pages[keep].index == old(pages[keep].index)
    {
      hide PageOf, LastPage, PinnedCount, AfterPrefetch, NewerThan, WithPages;
      ShapedIsReal(State());
      ghost var before := State();
      var end := address + bytes;
      var currentPage := PageOf(if end == 0 then 0 else end - 1, pageBytes);
      LastPageIs(end, pageBytes, currentPage);
      NoneAhead(before, currentPage, streaming, hadMiss);
      if !streaming && !hadMiss {
        return;
      }
      if !hadMiss && currentPage == lastPrefetchBase {
        return;
      }
      if pages.Length >= 4 && MostRecent(keep) {
        NothingNewerThanTheLatest(pages[..], clock, keep);
        assert Spared(keep, 0);
      }
      PatternIsFree(before, demand, currentPage);
      hide Shaped, RowsHold, RowNamed, Spared;
      lastPrefetchBase := currentPage;
      var pagesAhead := if demand.run >= 4 then 2 else 1;
      PrefetchAhead(currentPage + 1, pagesAhead, keep);
    }

    /** The pages from `first` on, as far as the ROM goes. */
    method PrefetchAhead(first: nat, pagesAhead: nat, ghost keep: nat)
      requires Valid() && pagesAhead <= 2
      modifies file, cache, pageSlots, pages, this`clock, this`pinnedPages, this`lost
      ensures Valid() && pages.Length > 0 && file.failures >= old(file.failures)
      ensures LostFrom(old(lost), lost, first)
      ensures file.failures == old(file.failures) ==> lost == old(lost) && State() == WithPages(old(State()), first, pagesAhead, true)
      ensures old(RowNamed(keep)) && (old(Spared(keep, 0)) || file.failures == old(file.failures)) ==> RowNamed(keep)
      ensures old(Spared(keep, 0)) ==> keep < pages.Length && pages[keep].index == old(pages[keep].index)
    {
      hide Valid, Shaped, WithPage, RowNamed, Spared, PageStart;
      BeforeIsShaped();
      ghost var before := State();
      ghost var failures, spared, named := file.failures, Spared(keep, 0), RowNamed(keep);
      ghost var index := if keep < pages.Length then pages[keep].index else 0;
      ghost var lostBefore := lost;
      SparedExists(keep);
      var ahead := 0;
      while ahead < pagesAhead
        invariant 0 <= ahead <= pagesAhead <= 2
        invariant Valid() && file.failures >= failures
        invariant LostFrom(lostBefore, lost, first)
        invariant file.failures == failures ==> lost == lostBefore && State() == WithPages(before, first, ahead, true)
        invariant spared ==> keep < pages.Length && Spared(keep, ahead) && pages[keep].index == index
        invariant named && (spared || file.failures == failures) ==> RowNamed(keep)
      {
        var page := first + ahead;
        if PageStart(page, pageBytes) >= size {
          NoPagesBeyond(before, first, ahead, pagesAhead);
          break;
        }
        SparedMore(keep, ahead);
        PrefetchPage(page, keep);
        ahead := ahead + 1;
      }
    }

    lemma SparedExists(keep: nat)
      ensures Spared(keep, 0) ==> keep < pages.Length
    {
    }

    lemma BeforeIsShaped()
      requires Valid()
      ensures Shaped(State()) && pages.Length > 0
    {
    }

    lemma SparedMore(keep: nat, n: nat)
      requires n <= 1
      ensures Spared(keep, n) ==> Spared(keep, 1)
    {
    }

    /** The byte `i` places after `ptr`. */
    function Deref(ptr: Pointer, i: nat): u8
      requires ptr.row < cache.Length0 && ptr.offset + i < cache.Length1
      reads cache
    {
      cache[ptr.row, ptr.offset + i]
    }

    /** A page that is needed now; when it is there its slot is the latest. */
    method DemandPage(page: nat) returns (slot: Option<nat>, hit: bool, ghost keep: nat)
      requires Valid() && page < pageSlots.Length
      modifies file, cache, pageSlots, pages, this`clock, this`pinnedPages, this`lost
      ensures Valid() && pages.Length > 0 && file.failures >= old(file.failures)
      ensures hit == Hit(old(State()), page) && keep == SlotFor(old(State()), page)
      ensures slot.Some? <==> file.failures == old(file.failures)
      ensures lost == old(lost) + (if slot.None? then [page] else [])
      ensures slot.Some? ==> slot.value == keep && State() == WithPage(old(State()), page, false)
      ensures slot.Some? ==> MostRecent(keep) && RowNamed(keep) && pages[keep].index == page
    {
      ghost var before := State();
      ShapedIsReal(before);
      DemandIsLatest(before, page);
      LatestAge(before, page);
      hide Shaped, PinnedCount, RowsHold, WithPage, SlotFor, Holds;
      slot, hit := EnsurePage(page, false);
      keep := SlotFor(before, page);
    }

    /** The page of an access, and then the pages ahead of it. */
    method FetchPage(address: u32, bytes: nat, streaming: bool, page: nat) returns (slot: Option<nat>)
      requires Valid() && pageBytes > 0 && page == PageOf(address, pageBytes) < pageSlots.Length && pages.Length == cache.Length0
      requires page <= LastPage(address + bytes, pageBytes)
      modifies this`clock, this`pinnedPages, this`lastPrefetchBase, this`lost, file, cache, pageSlots, pages
      ensures Valid() && pages.Length > 0 && file.failures >= old(file.failures)
      ensures slot.Some? ==> slot.value < cache.Length0
      ensures file.failures == old(file.failures) ==>
        && slot == Some(SlotFor(old(State()), page))
        && State() == AfterPrefetch(WithPage(old(State()), page, false), LastPage(address + bytes, pageBytes), streaming, !Hit(old(State()), page))
        && Holds(slot.value, pages[slot.value].index)
      ensures slot.Some? && pages.Length >= 4 ==> Holds(slot.value, page)
      ensures old(lost) <= lost && (slot.None? <==> page in LostSince(lost, |old(lost)|))
      ensures file.failures == old(file.failures) ==> lost == old(lost)
    {
      hide PageOf, LastPage, Valid, WithPage, AfterPrefetch, SlotFor, Hit, Holds;
      var hit;
      ghost var keep;
      slot, hit, keep := DemandPage(page);
      ghost var demanded := lost;
      MaybePrefetchAfterRead(address, bytes, streaming, !hit, keep);
      LostPage(old(lost), demanded, lost, page, LastPage(address + bytes, pageBytes) + 1);
    }

    /**
     read_ptr: a pointer into the page, handed out after up to two further pages were prefetched. Without a
     failure it addresses the page that the slot holds by then; with four slots or more, always the right one.
     */
    method ReadPtr(address: u32, bytes: nat) returns (ptr: Option<Pointer>)
      requires Valid() && 0 < bytes && address + bytes <= size
      modifies this, file, cache, pageSlots, pages
      ensures Valid() && pages.Length > 0 && pageBytes > 0 && file.failures >= old(file.failures)
      ensures ptr.Some? ==> ptr.value.row < cache.Length0 && ptr.value.offset == OffsetIn(address, pageBytes)
      ensures ptr.Some? ==> OffsetIn(address, pageBytes) + bytes <= pageBytes
      ensures OffsetIn(address, pageBytes) + bytes <= pageBytes && file.failures == old(file.failures) ==>
        && ptr.Some? && State() == AfterPtr(old(State()), Access(address, bytes))
        && Holds(ptr.value.row, PageShown(old(State()), Access(address, bytes)))
      ensures ptr.Some? && pages.Length >= 4 ==> Holds(ptr.value.row, PageOf(address, pageBytes))
      ensures old(lost) <= lost && (file.failures == old(file.failures) ==> lost == old(lost))
      ensures OffsetIn(address, pageBytes) + bytes <= pageBytes ==>
        (ptr.None? <==> PageOf(address, pageBytes) in LostSince(lost, |old(lost)|))
    {
      hide Valid, PageOf, OffsetIn, LastPage, WithPage, AfterPtr, AfterPrefetch, SlotFor, Hit, Holds, Noted, Follows;
      InRom(address, bytes);
      ghost var before := State();
      var page, offset := PageOf(address, pageBytes), OffsetIn(address, pageBytes);
      var streaming := NoteDemandAccess(address, bytes);
      if offset + bytes > pageBytes {
        return None;
      }
      PtrSteps(before, State(), Access(address, bytes));
      EndsInOrAfter(address, bytes, pageBytes);
      var slot := FetchPage(address, bytes, streaming, page);
      ptr := if slot.Some? then Some(Pointer(slot.value, offset)) else None;
    }

    /** An access inside the ROM begins in one of its pages. */
    lemma InRom(address: nat, bytes: nat)
      requires Valid() && 0 < bytes && address + bytes <= size
      ensures pageBytes > 0 && PageOf(address, pageBytes) < pageSlots.Length && 0 < pages.Length == cache.Length0
    {
      hide Shaped;
      ShapedIsReal(State());
      AddressSplits(address, pageBytes);
      PageInRange(PageOf(address, pageBytes), size, pageBytes);
    }

    lemma SizeIsRom()
      requires Valid()
      ensures size == |file.bytes| && pages.Length == cache.Length0 > 0 && cache.Length1 == pageBytes > 0
    {
      ShapedIsReal(State());
      hide Shaped, RowsHold, PinnedCount;
    }

    /** Copy part of a served page, or fill with 0xFF when there is none. */
    method CopyChunk(slot: Option<nat>, address: nat, out: array<u8>, start: nat, chunk: nat)
      requires pageBytes > 0 && (slot.Some? ==> slot.value < cache.Length0 && Holds(slot.value, PageOf(address, pageBytes)))
      requires OffsetIn(address, pageBytes) + chunk <= cache.Length1 == pageBytes && start + chunk <= out.Length
      requires address + chunk <= |file.bytes|
      modifies out
      ensures out[..start] == old(out[..start])
      ensures IsChunk(out[start..start + chunk], file.bytes, address, slot.None?)
    {
      var page, offset := PageOf(address, pageBytes), OffsetIn(address, pageBytes);
      AddressSplits(address, pageBytes);
      hide PageOf, OffsetIn, PageStart;
      if slot.None? {
        forall i | start <= i < start + chunk {
          out[i] := 0xFF;
        }
      } else {
        forall i | start <= i < start + chunk {
          out[i] := cache[slot.value, offset + (i - start)];
        }
        ghost var copied := out[start..start + chunk];
        forall i: nat | i < chunk
          ensures copied[i] == file.bytes[address + i]
        {
          assert cache[slot.value, offset + i] == PageByte(file.bytes, pageBytes, page, offset + i);
        }
      }
    }

    /** One round of read_bytes: the rest of page `p`, the k-th, which holds the next byte. */
    method ReadChunk(address: u32, out: array<u8>, copied: nat, ghost k: nat, ghost missing: set<nat>)
      returns (chunk: nat, hit: bool, ghost failed: bool)
      requires Valid() && pageBytes > 0 && out as object != pageSlots && copied < out.Length && address + out.Length <= |file.bytes|
      requires PagesCopied(address, pageBytes, out.Length, copied, k)
      requires Delivered(out[..copied], file.bytes, address, pageBytes, missing)
      requires forall m :: m in missing ==> m < PageOf(address, pageBytes) + k
      modifies file, cache, pageSlots, pages, this`clock, this`pinnedPages, this`lost, out
      ensures Valid() && pages.Length > 0 && file.failures >= old(file.failures)
      ensures 0 < chunk && copied + chunk <= out.Length
      ensures PagesCopied(address, pageBytes, out.Length, copied + chunk, k + 1)
      ensures failed <==> file.failures > old(file.failures)
      ensures lost == old(lost) + (if failed then [PageOf(address, pageBytes) + k] else [])
      ensures var p := PageOf(address, pageBytes) + k;
        && Delivered(out[..copied + chunk], file.bytes, address, pageBytes, if failed then missing + {p} else missing)
        && hit == Hit(old(State()), p)
        && (!failed ==> State() == WithPage(old(State()), p, false))
    {
      hide Valid, Holds, Delivered, IsChunk, PageOf, OffsetIn, PageStart, PagesCopied, WithPage, Hit, SlotFor;
      SizeIsRom();
      ChunkIsOnePage(address, pageBytes, out.Length, copied, k);
      ghost var p := PageOf(address, pageBytes) + k;
      ghost var done := out[..copied];
      chunk := ChunkAt(address + copied, pageBytes, out.Length - copied);
      assert OffsetIn(address + copied, pageBytes) + chunk <= pageBytes;
      InRom(address + copied, chunk);
      var slot;
      slot, hit := EnsurePage(PageOf(address + copied, pageBytes), false);
      failed := slot.None?;
      CopyChunk(slot, address + copied, out, copied, chunk);
      DeliveredMore(done, out[copied..copied + chunk], file.bytes, address, pageBytes, missing, p, failed);
      assert done + out[copied..copied + chunk] == out[..copied + chunk];
    }

    /** The loop of read_bytes: page by page, each copied before the next is looked up. */
    method CopyPages(address: u32, out: array<u8>) returns (hadMiss: bool, ghost missing: set<nat>, ghost k: nat)
      requires Valid() && pageBytes > 0 && pages.Length > 0 && out as object != pageSlots && 0 < out.Length && address + out.Length <= |file.bytes|
      modifies file, cache, pageSlots, pages, this`clock, this`pinnedPages, this`lost, out
      ensures Valid() && file.failures >= old(file.failures)
      ensures Delivered(out[..], file.bytes, address, pageBytes, missing)
      ensures PagesCopied(address, pageBytes, out.Length, out.Length, k)
      ensures old(lost) <= lost && missing == LostSince(lost, |old(lost)|)
      ensures file.failures == old(file.failures) ==>
        && lost == old(lost) && missing == {} && State() == WithPages(old(State()), PageOf(address, pageBytes), k, false)
        && hadMiss == Misses(old(State()), PageOf(address, pageBytes), k)
    {
      hide Valid, Delivered, PageOf, PagesCopied, WithPage, Hit, LostSince;
      NothingLost(lost);
      ghost var noted := State();
      ghost var first := PageOf(address, pageBytes);
      hadMiss, missing, k := false, {}, 0;
      var copied := 0;
      assert Delivered(out[..0], file.bytes, address, pageBytes, {}) by { NothingDelivered(out[..0], file.bytes, address, pageBytes); }
      NothingCopied(address, pageBytes, out.Length);
      while copied < out.Length
        invariant 0 <= copied <= out.Length && PagesCopied(address, pageBytes, out.Length, copied, k)
        invariant Valid() && file.failures >= old(file.failures)
        invariant Delivered(out[..copied], file.bytes, address, pageBytes, missing)
        invariant forall m :: m in missing ==> m < first + k
        invariant old(lost) <= lost && missing == LostSince(lost, |old(lost)|)
        invariant file.failures == old(file.failures) ==>
          lost == old(lost) && missing == {} && State() == WithPages(noted, first, k, false) && hadMiss == Misses(noted, first, k)
        decreases out.Length - copied
      {
        var chunk, hit;
        ghost var failed;
        ghost var so := lost;
        chunk, hit, failed := ReadChunk(address, out, copied, k, missing);
        LostOneMore(so, |old(lost)|, first + k);
        assert lost == if failed then so + [first + k] else so;
        hadMiss := hadMiss || !hit;
        missing := if failed then missing + {first + k} else missing;
        copied := copied + chunk;
        k := k + 1;
      }
      assert out[..out.Length] == out[..];
    }

    /**
     read_bytes: exact for a cache of any size. The bytes of the pages whose load failed in this call, and no
     others, come out as 0xFF.
     */
    method ReadBytes(address: u32, out: array<u8>) returns (ok: bool)
      requires Valid() && out as object != pageSlots
      modifies this, file, cache, pageSlots, pages, out
      ensures Valid() && pages.Length > 0 && pageBytes > 0 && file.failures >= old(file.failures)
      ensures ok == (out.Length == 0 || address + out.Length <= size)
      ensures !ok ==> out[..] == old(out[..])
      ensures old(lost) <= lost
      ensures ok && out.Length > 0 ==> Delivered(out[..], file.bytes, address, pageBytes, LostSince(lost, |old(lost)|))
      ensures file.failures == old(file.failures) ==> lost == old(lost) && State() == After(old(State()), Block(address, out.Length))
    {
      hide Valid, Delivered, PageOf, LastPage, PagesCopied, After, AfterBlock, WithPages, Misses, AfterPrefetch, Noted, Follows, RowNamed, MostRecent,
           LostSince, LostFrom;
      SizeIsRom();
      ghost var before := State();
      NoBlock(before, address, out.Length);
      if out.Length == 0 {
        return true;
      }
      if address + out.Length > size {
        return false;
      }
      var streaming := NoteDemandAccess(address, out.Length);
      ghost var noted := State();
      var hadMiss;
      ghost var missing, k;
      hadMiss, missing, k := CopyPages(address, out);
      ghost var demanded := lost;
      MaybePrefetchAfterRead(address, out.Length, streaming, hadMiss, 0);
      BlockSteps(before, noted, Access(address, out.Length), k);
      DeliveredDespite(out[..], file.bytes, address, pageBytes, demanded, lost, |old(lost)|);
      ok := true;
    }

    /** The bytes at a pointer are those of the page that its row holds. */
    lemma PointsAtPage(ptr: Pointer, p: nat, n: nat)
      requires Valid() && pageBytes > 0 && ptr.row < cache.Length0 && ptr.offset + n <= pageBytes && Holds(ptr.row, p)
      ensures forall i: nat :: i < n ==>
        ptr.offset + i < cache.Length1 && Deref(ptr, i) == PageBytes(file.bytes, pageBytes, p, ptr.offset, n)[i]
    {
      hide Shaped, RowsHold, PageByte, PinnedCount;
    }

    /** read_byte: what the slot shows; with four slots or more the flat ROM's byte, or 0xFF if the load of its page failed. */
    method ReadByte(address: u32) returns (value: u8)
      requires Valid()
      modifies this, file, cache, pageSlots, pages
      ensures Valid() && file.failures >= old(file.failures) && pages.Length > 0 && pageBytes > 0
      ensures file.failures == old(file.failures) ==>
        && State() == After(old(State()), ByteAt(address))
        && Number(value) == CacheAnswer(file.bytes, old(State()), ByteAt(address))
      ensures old(lost) <= lost && (file.failures == old(file.failures) ==> lost == old(lost))
      ensures pages.Length >= 4 ==>
        Number(value) == FlatAnswer(ShownPages(file.bytes, pageBytes, LostSince(lost, |old(lost)|)), ByteAt(address))
    {
      SizeIsRom();
      ghost var before := State();
      hide Valid, Holds, AfterPtr, PageShown, PageOf, OffsetIn, PageBytes, ShownPages, LostSince;
      if address >= size {
        return 0xFF;
      }
      var ptr := ReadPtr(address, 1);
      ByteIsShown(file.bytes, pageBytes, address, LostSince(lost, |old(lost)|));
      if ptr.None? {
        return 0xFF;
      }
      if file.failures == old(file.failures) {
        PointsAtPage(ptr.value, PageShown(before, Access(address, 1)), 1);
      }
      if pages.Length >= 4 {
        PointsAtPage(ptr.value, PageOf(address, pageBytes), 1);
        OwnPageIsFlat(file.bytes, pageBytes, address, 1);
      }
      assert ByPointer(before, ByteAt(address));
      value := Deref(ptr.value, 0);
    }

    /** Two or four bytes for read16 and read32: through a pointer, or copied when they straddle two pages. */
    method ReadSpan(address: u32, n: nat) returns (got: seq<u8>)
      requires Valid() && (n == 2 || n == 4) && address + n <= size
      modifies this, file, cache, pageSlots, pages
      ensures Valid() && file.failures >= old(file.failures) && pages.Length > 0 && pageBytes > 0
      ensures |got| == n
      ensures file.failures == old(file.failures) && OffsetIn(address, pageBytes) + n <= pageBytes ==>
        && State() == AfterPtr(old(State()), Access(address, n))
        && got == PageBytes(file.bytes, pageBytes, PageShown(old(State()), Access(address, n)), OffsetIn(address, pageBytes), n)
      ensures file.failures == old(file.failures) && OffsetIn(address, pageBytes) + n > pageBytes ==>
        && State() == AfterBlock(old(State()), Access(address, n))
        && got == file.bytes[address..address + n]
      ensures old(lost) <= lost && (file.failures == old(file.failures) ==> lost == old(lost))
      ensures pages.Length >= 4 || OffsetIn(address, pageBytes) + n > pageBytes ==>
        Delivered(got, file.bytes, address, pageBytes, LostSince(lost, |old(lost)|))
    {
      hide Valid, Holds, AfterPtr, AfterBlock, After, PageShown, PageOf, OffsetIn, PageBytes, Delivered, LostSince;
      SizeIsRom();
      ghost var before := State();
      if OffsetIn(address, pageBytes) + n > pageBytes {
        var scratch := new u8[n];
        var ok := ReadBytes(address, scratch);
        NothingLost(lost);
        BlockIsCopied(before, scratch[..], file.bytes, address, LostSince(lost, |old(lost)|));
        return scratch[..];
      }
      var ptr := ReadPtr(address, n);
      if ptr.None? {
        got := seq(n, _ => 0xFF);
        OnePageDelivered(got, file.bytes, address, pageBytes, LostSince(lost, |old(lost)|));
        return;
      }
      got := BytesAt(ptr.value, n);
      if file.failures == old(file.failures) {
        PointsAtPage(ptr.value, PageShown(before, Access(address, n)), n);
      }
      if pages.Length >= 4 {
        PointsAtPage(ptr.value, PageOf(address, pageBytes), n);
        OwnPageIsFlat(file.bytes, pageBytes, address, n);
        assert got == file.bytes[address..address + n];
        OnePageDelivered(got, file.bytes, address, pageBytes, LostSince(lost, |old(lost)|));
      }
    }

    /** load_le16 and load_le32 read the bytes at a pointer. */
    function BytesAt(ptr: Pointer, n: nat): (b: seq<u8>)
      requires ptr.row < cache.Length0 && ptr.offset + n <= cache.Length1
      reads cache
      ensures |b| == n && forall i: nat :: i < n ==> b[i] == Deref(ptr, i)
    {
      seq(n, i requires 0 <= i < n reads cache => Deref(ptr, i))
    }

    method Read16(address: u32) returns (value: u16)
      requires Valid()
      modifies this, file, cache, pageSlots, pages
      ensures Valid() && file.failures >= old(file.failures) && pages.Length > 0 && pageBytes > 0
      ensures file.failures == old(file.failures) ==>
        && State() == After(old(State()), HalfAt(address))
        && Number(value) == CacheAnswer(file.bytes, old(State()), HalfAt(address))
      ensures address + 2 > size ==> value == 0xFFFF
      ensures old(lost) <= lost && (file.failures == old(file.failures) ==> lost == old(lost))
      ensures pages.Length >= 4 ==>
        Number(value) == FlatAnswer(ShownPages(file.bytes, pageBytes, LostSince(lost, |old(lost)|)), HalfAt(address))
    {
      SizeIsRom();
      ghost var before := State();
      hide Valid, PageBytes, OffsetIn, AfterPtr, AfterBlock, PageShown, Delivered, ShownPages, LostSince, Half;
      if address + 2 > size {
        return 0xFFFF;
      }
      FlatNumber(file.bytes, HalfAt(address));
      var got := ReadSpan(address, 2);
      value := LittleEndian(got);
      ghost var missing := LostSince(lost, |old(lost)|);
      FlatNumber(ShownPages(file.bytes, pageBytes, missing), HalfAt(address));
      DeliveredIffShown(got, file.bytes, address, pageBytes, missing);
    }

    method Read32(address: u32) returns (value: u32)
      requires Valid()
      modifies this, file, cache, pageSlots, pages
      ensures Valid() && file.failures >= old(file.failures) && pages.Length > 0 && pageBytes > 0
      ensures file.failures == old(file.failures) ==>
        && State() == After(old(State()), WordAt(address))
        && Number(value) == CacheAnswer(file.bytes, old(State()), WordAt(address))
      ensures address + 4 > size ==> value == 0xFFFF_FFFF
      ensures old(lost) <= lost && (file.failures == old(file.failures) ==> lost == old(lost))
      ensures pages.Length >= 4 ==>
        Number(value) == FlatAnswer(ShownPages(file.bytes, pageBytes, LostSince(lost, |old(lost)|)), WordAt(address))
    {
      SizeIsRom();
      ghost var before := State();
      hide Valid, PageBytes, OffsetIn, AfterPtr, AfterBlock, PageShown, Delivered, ShownPages, LostSince, Word;
      if address + 4 > size {
        return 0xFFFF_FFFF;
      }
      FlatNumber(file.bytes, WordAt(address));
      var got := ReadSpan(address, 4);
      value := LittleEndian(got);
      ghost var missing := LostSince(lost, |old(lost)|);
      FlatNumber(ShownPages(file.bytes, pageBytes, missing), WordAt(address));
      DeliveredIffShown(got, file.bytes, address, pageBytes, missing);
    }

    /** prefetch: touches every page of a range, as far as the ROM goes. */
    method Prefetch(address: u32, bytes: nat)
      requires Valid()
      modifies file, cache, pageSlots, pages, this`clock, this`pinnedPages, this`lost
      ensures Valid() && file.failures >= old(file.failures) && pages.Length > 0 && pageBytes > 0
      ensures old(lost) <= lost && (file.failures == old(file.failures) ==> lost == old(lost))
      ensures file.failures == old(file.failures) ==> State() == After(old(State()), Ahead(address, bytes))
    {
      hide Valid, After, WithPage, WithPages, PageOf, PageStart, LastPage, PagesCopied, OffsetIn, PagesMet;
      SizeIsRom();
      ghost var before := State();
      AheadIs(before, address, bytes);
      if bytes == 0 || address >= size {
        return;
      }
      var end: nat := Min(size, address + bytes);
      var cursor: nat := address;
      ghost var first, k := PageOf(address, pageBytes), 0;
      ghost var total := end - address;
      NothingCopied(address, pageBytes, total);
      NoPagesYet(before, first);
      while cursor < end
        invariant address <= cursor && Valid() && file.failures >= old(file.failures)
        invariant PagesCopied(address, pageBytes, total, Min(cursor, end) - address, k)
        invariant old(lost) <= lost && (file.failures == old(file.failures) ==> lost == old(lost))
        invariant file.failures == old(file.failures) ==> State() == WithPages(before, first, k, true)
        decreases end - cursor
      {
        NextCursor(address, pageBytes, total, cursor - address, k);
        OnePageMore(before, first, k);
        var slot, hit := EnsurePage(PageOf(cursor, pageBytes), true);
        cursor := PageStart(PageOf(cursor, pageBytes) + 1, pageBytes);
        k := k + 1;
      }
      AllPagesMet(address, pageBytes, total, k);
    }

    /** reset_frame_stats: forgets the access pattern, not the pages. */
    method ResetFrameStats()
      requires Valid()
      modifies this`demand, this`lastPrefetchBase, pages
      ensures Valid() && pages.Length > 0 && pageBytes > 0
      ensures State() == After(old(State()), NewFrame)
      ensures forall s :: 0 <= s < pages.Length ==> pages[s] == old(pages[s]).(prefetched := false)
    {
      SizeIsRom();
      ghost var before := State();
      NewFrameKeepsShape(before);
      SamePins(pages[..], Unprefetched(pages[..]));
      assert After(before, NewFrame) == before.(pages := Unprefetched(before.pages), demand := NO_DEMAND, base := NO_PAGE);
      hide Holds, PinnedCount, Shaped, After;
      demand, lastPrefetchBase := NO_DEMAND, NO_PAGE;
      forall s | 0 <= s < pages.Length {
        pages[s] := pages[s].(prefetched := false);
      }
      assert pages[..] == Unprefetched(before.pages);
    }

    /** One request. With four slots or more it is answered from the ROM as the failures of its own loads leave it. */
    method ServeOne(r: Request) returns (answer: Answer)
      requires Valid()
      modifies this, file, cache, pageSlots, pages
      ensures Valid() && file.failures >= old(file.failures) && pages.Length > 0 && pageBytes > 0
      ensures old(lost) <= lost && (file.failures == old(file.failures) ==> lost == old(lost))
      ensures file.failures == old(file.failures) ==>
        State() == After(old(State()), r) && answer == CacheAnswer(file.bytes, old(State()), r)
      ensures pages.Length >= 4 ==> answer == FlatAnswer(ShownPages(file.bytes, pageBytes, LostSince(lost, |old(lost)|)), r)
    {
      SizeIsRom();
      ghost var before := State();
      hide Valid, After, Delivered, CacheAnswer, FlatAnswer, PageOf, ShownPages, LostSince;
      OtherAnswers(file.bytes, before, r);
      answer := NoAnswer;
      match r {
        case ByteAt(a) =>
          var value := ReadByte(a);
          answer := Number(value);
        case HalfAt(a) =>
          var value := Read16(a);
          answer := Number(value);
        case WordAt(a) =>
          var value := Read32(a);
          answer := Number(value);
        case Block(a, n) =>
          answer := ServeBlock(a, n);
        case Ahead(a, n) =>
          Prefetch(a, n);
        case NewFrame =>
          ResetFrameStats();
      }
      ghost var shown := ShownPages(file.bytes, pageBytes, LostSince(lost, |old(lost)|));
      OtherAnswers(shown, before, r);
    }

    method ServeBlock(a: u32, n: nat) returns (answer: Answer)
      requires Valid()
      modifies this, file, cache, pageSlots, pages
      ensures Valid() && file.failures >= old(file.failures) && pages.Length > 0 && pageBytes > 0
      ensures old(lost) <= lost && (file.failures == old(file.failures) ==> lost == old(lost))
      ensures file.failures == old(file.failures) ==> State() == After(old(State()), Block(a, n))
      ensures answer == FlatAnswer(ShownPages(file.bytes, pageBytes, LostSince(lost, |old(lost)|)), Block(a, n))
      ensures file.failures == old(file.failures) ==> answer == CacheAnswer(file.bytes, old(State()), Block(a, n))
    {
      SizeIsRom();
      ghost var before := State();
      hide Valid, After, Delivered, CacheAnswer, PageOf, ShownPages, LostSince;
      OtherAnswers(file.bytes, before, Block(a, n));
      NothingLost(lost);
      NothingMissing(file.bytes, pageBytes);
      var out := new u8[n];
      var ok := ReadBytes(a, out);
      answer := if ok then Bytes(out[..]) else NoAnswer;
      if ok && n > 0 {
        DeliveredIffShown(out[..], file.bytes, a, pageBytes, LostSince(lost, |old(lost)|));
      }
    }

    /**
     Any run of reads, prefetches and frame resets: without an I/O failure it answers as the bookkeeping says; and
     with four slots or more each answer is that of the flat ROM, but for 0xFF in the pages whose load failed
     during that very request. `marks` divides the record of failures among the requests.
     */
    method Serve(requests: seq<Request>) returns (answers: seq<Answer>, ghost marks: seq<nat>)
      requires Valid()
      modifies this, file, cache, pageSlots, pages
      ensures Valid() && |answers| == |requests| && file.failures >= old(file.failures) && old(State()).pages != [] && pageBytes > 0
      ensures file.failures == old(file.failures) ==> lost == old(lost) && State() == AfterAll(old(State()), requests)
      ensures file.failures == old(file.failures) ==> Answered(file.bytes, old(State()), requests, answers)
      ensures Divides(marks, old(lost), lost, |requests|)
      ensures pages.Length >= 4 ==> AsShown(file.bytes, pageBytes, lost, marks, requests, answers)
      ensures file.failures == old(file.failures) && pages.Length >= 4 ==>
        forall i: nat :: i < |requests| ==> answers[i] == FlatAnswer(file.bytes, requests[i])
    {
      SizeIsRom();
      ghost var before := State();
      assert Shaped(before) && before.size == |file.bytes|;
      hide Valid, Shaped, FlatAnswer, CacheAnswer, After, AfterAll, AnswerAt, Answered, Divides, AsShown, ShownPages, LostSince;
      answers, marks := [], [|lost|];
      NoAnswersYet(file.bytes, before, requests);
      NothingServedYet(file.bytes, pageBytes, lost, requests);
      for i := 0 to |requests|
        invariant Valid() && |answers| == i && file.failures >= old(file.failures)
        invariant file.failures == old(file.failures) ==> lost == old(lost) && State() == AfterAll(before, requests[..i])
        invariant file.failures == old(file.failures) ==> Answered(file.bytes, before, requests, answers)
        invariant Divides(marks, old(lost), lost, i)
        invariant pages.Length >= 4 ==> AsShown(file.bytes, pageBytes, lost, marks, requests, answers)
      {
        OneServed(before, requests, i, AfterAll(before, requests[..i]));
        AnswerIs(file.bytes, before, requests, i);
        ghost var so := lost;
        var answer := ServeOne(requests[i]);
        if file.failures == old(file.failures) {
          OneAnswerMore(file.bytes, before, requests, answers, answer);
        }
        OneMarkMore(marks, old(lost), so, lost, i);
        if pages.Length >= 4 {
          OneShownMore(file.bytes, pageBytes, so, lost, marks, old(lost), requests, answers, answer);
        }
        answers, marks := answers + [answer], marks + [|lost|];
      }
      assert requests[..|requests|] == requests;
      if file.failures == old(file.failures) && pages.Length >= 4 {
        NothingLostIsFlat(file.bytes, pageBytes, lost, marks, requests, answers);
      }
    }
  }

  // ----- Runs with failures -----

  /** Request i failed to load the pages recorded from marks[i] up to marks[i + 1]. */
  ghost predicate Divides(marks: seq<nat>, before: seq<nat>, now: seq<nat>, n: nat) {
    && before <= now && |marks| == n + 1 && marks[0] == |before| && marks[n] == |now|
    && forall i, j | 0 <= i <= j <= n :: marks[i] <= marks[j]
  }

  ghost predicate AsShown(rom: seq<u8>, pageBytes: nat, lost: seq<nat>, marks: seq<nat>, requests: seq<Request>, answers: seq<Answer>)
    requires pageBytes > 0
  {
    && |answers| <= |requests| && |answers| < |marks|
    && forall i: nat :: i < |answers| ==>
      answers[i] == FlatAnswer(ShownPages(rom, pageBytes, LostIn(lost, marks[i], marks[i + 1])), requests[i])
  }

  lemma NothingServedYet(rom: seq<u8>, pageBytes: nat, lost: seq<nat>, requests: seq<Request>)
    requires pageBytes > 0
    ensures Divides([|lost|], lost, lost, 0) && AsShown(rom, pageBytes, lost, [|lost|], requests, [])
  {
  }

  lemma OneMarkMore(marks: seq<nat>, before: seq<nat>, so: seq<nat>, now: seq<nat>, n: nat)
    requires Divides(marks, before, so, n) && so <= now
    ensures Divides(marks + [|now|], before, now, n + 1)
  {
  }

  lemma OneShownMore(rom: seq<u8>, pageBytes: nat, so: seq<nat>, now: seq<nat>, marks: seq<nat>, before: seq<nat>, requests: seq<Request>,
                     answers: seq<Answer>, answer: Answer)
    requires pageBytes > 0 && so <= now && |answers| < |requests|
    requires Divides(marks, before, so, |answers|) && AsShown(rom, pageBytes, so, marks, requests, answers)
    requires answer == FlatAnswer(ShownPages(rom, pageBytes, LostSince(now, |so|)), requests[|answers|])
    ensures AsShown(rom, pageBytes, now, marks + [|now|], requests, answers + [answer])
  {
    hide FlatAnswer, ShownPages, LostIn;
    var longer, all := marks + [|now|], answers + [answer];
    forall i: nat | i < |all|
      ensures all[i] == FlatAnswer(ShownPages(rom, pageBytes, LostIn(now, longer[i], longer[i + 1])), requests[i])
    {
      if i < |answers| {
        assert marks[i] <= marks[i + 1] <= marks[|answers|];
        SameLostIn(so, now, marks[i], marks[i + 1]);
      }
    }
  }

  lemma SameLostIn(so: seq<nat>, now: seq<nat>, a: nat, b: nat)
    requires so <= now && b <= |so|
    ensures LostIn(so, a, b) == LostIn(now, a, b)
  {
    forall p
      ensures p in LostIn(so, a, b) <==> p in LostIn(now, a, b)
    {
      if p in LostIn(so, a, b) {
        var i :| a <= i < b && i < |so| && so[i] == p;
        assert now[i] == p;
      }
      if p in LostIn(now, a, b) {
        var i :| a <= i < b && i < |now| && now[i] == p;
        assert so[i] == p;
      }
    }
  }

  /** A run without failures is answered by the flat ROM itself. */
  lemma NothingLostIsFlat(rom: seq<u8>, pageBytes: nat, lost: seq<nat>, marks: seq<nat>, requests: seq<Request>, answers: seq<Answer>)
    requires pageBytes > 0 && |answers| == |requests|
    requires Divides(marks, lost, lost, |requests|) && AsShown(rom, pageBytes, lost, marks, requests, answers)
    ensures forall i: nat :: i < |requests| ==> answers[i] == FlatAnswer(rom, requests[i])
  {
    hide FlatAnswer, ShownPages;
    forall i: nat | i < |requests|
      ensures answers[i] == FlatAnswer(rom, requests[i])
    {
      assert marks[0] <= marks[i] <= marks[i + 1] <= marks[|requests|];
      assert LostIn(lost, marks[i], marks[i + 1]) == {};
      NothingMissing(rom, pageBytes);
    }
  }

  /** The answers so far are those of the bookkeeping. */
  ghost predicate Answered(rom: seq<u8>, c: Cached, requests: seq<Request>, answers: seq<Answer>)
    requires c.pages != [] && c.pageBytes > 0
  {
    |answers| <= |requests| && forall i: nat :: i < |answers| ==> answers[i] == AnswerAt(rom, c, requests, i)
  }

  lemma NoAnswersYet(rom: seq<u8>, c: Cached, requests: seq<Request>)
    requires c.pages != [] && c.pageBytes > 0
    ensures AfterAll(c, requests[..0]) == c && Answered(rom, c, requests, [])
  {
  }

  lemma OneServed(c: Cached, requests: seq<Request>, n: nat, served: Cached)
    requires c.pages != [] && c.pageBytes > 0 && n < |requests| && served == AfterAll(c, requests[..n])
    ensures AfterAll(c, requests[..n + 1]) == After(served, requests[n])
  {
    hide After, AfterAll;
    OneRequestMore(c, requests[..n], requests[n]);
    assert requests[..n + 1] == requests[..n] + [requests[n]];
  }

  lemma OneAnswerMore(rom: seq<u8>, c: Cached, requests: seq<Request>, answers: seq<Answer>, answer: Answer)
    requires c.pages != [] && c.pageBytes > 0 && |answers| < |requests| && Answered(rom, c, requests, answers)
    requires answer == AnswerAt(rom, c, requests, |answers|)
    ensures Answered(rom, c, requests, answers + [answer])
  {
    hide CacheAnswer, After, AfterAll, AnswerAt;
  }

  lemma AnswerIs(rom: seq<u8>, c: Cached, requests: seq<Request>, i: nat)
    requires c.pages != [] && c.pageBytes > 0 && i < |requests|
    ensures AnswerAt(rom, c, requests, i) == CacheAnswer(rom, AfterAll(c, requests[..i]), requests[i])
  {
    hide CacheAnswer, AfterAll;
  }

  /** Blocks are flat in any cache. */
  lemma OtherAnswers(rom: seq<u8>, c: Cached, r: Request)
    requires c.pages != [] && c.pageBytes > 0
    ensures r.Ahead? || r.NewFrame? ==> CacheAnswer(rom, c, r) == NoAnswer
    ensures r.Block? && r.bytes == 0 ==> CacheAnswer(rom, c, r) == Bytes([])
    ensures r.Block? && r.bytes > 0 && r.address + r.bytes > |rom| ==> CacheAnswer(rom, c, r) == NoAnswer
    ensures r.Block? && r.bytes > 0 && r.address + r.bytes <= |rom| ==>
      CacheAnswer(rom, c, r) == Bytes(rom[r.address..r.address + r.bytes])
    ensures r.Ahead? || r.NewFrame? ==> FlatAnswer(rom, r) == NoAnswer
  {
  }

  lemma LastPageIs(end: nat, pageBytes: nat, page: nat)
    requires pageBytes > 0 && page == PageOf(if end == 0 then 0 else end - 1, pageBytes)
    ensures LastPage(end, pageBytes) == page
  {
  }

  /** What maybe_prefetch_after_read does, by its guards. */
  lemma NoneAhead(c: Cached, current: nat, streaming: bool, missed: bool)
    requires c.pages != []
    ensures AfterPrefetch(c, current, streaming, missed) ==
      if (!streaming && !missed) || (!missed && current == c.base) then c
      else WithPages(c.(base := current), current + 1, if c.demand.run >= 4 then 2 else 1, true)
  {
    hide WithPages;
  }

  lemma AheadIs(c: Cached, address: u32, bytes: nat)
    requires c.pages != [] && c.pageBytes > 0
    ensures bytes == 0 || address >= c.size ==> After(c, Ahead(address, bytes)) == c
    ensures bytes > 0 && address < c.size ==>
      var n := PagesMet(Access(address, Min(bytes, c.size - address)), c.pageBytes);
      After(c, Ahead(address, bytes)) == WithPages(c, PageOf(address, c.pageBytes), Max(n, 0), true)
  {
    hide WithPages, PageOf, PagesMet, AfterBlock, AfterNumber, Unprefetched;
  }

  lemma NoPagesYet(c: Cached, first: nat)
    requires c.pages != []
    ensures WithPages(c, first, 0, true) == c
  {
  }

  lemma OnePageMore(c: Cached, first: nat, k: nat)
    requires c.pages != []
    ensures WithPages(c, first, k + 1, true) == WithPage(WithPages(c, first, k, true), first + k, true)
  {
    hide WithPage;
  }

  /** The cursor of a prefetch moves from page start to page start. */
  lemma NextCursor(address: nat, pageBytes: nat, total: nat, done: nat, k: nat)
    requires pageBytes > 0 && done < total && PagesCopied(address, pageBytes, total, done, k)
    ensures PageOf(address + done, pageBytes) == PageOf(address, pageBytes) + k
    ensures var next := PageStart(PageOf(address + done, pageBytes) + 1, pageBytes);
      && next > address + done
      && PagesCopied(address, pageBytes, total, Min(next, address + total) - address, k + 1)
  {
    ChunkIsOnePage(address, pageBytes, total, done, k);
    AddressSplits(address + done, pageBytes);
    NextPageStart(PageOf(address + done, pageBytes), pageBytes);
    hide PageOf, OffsetIn, PageStart, LastPage;
  }

  lemma AllPagesMet(address: u32, pageBytes: nat, total: nat, k: nat)
    requires pageBytes > 0 && total > 0 && PagesCopied(address, pageBytes, total, total, k)
    ensures PagesMet(Access(address, total), pageBytes) == k
  {
    hide PageOf, LastPage;
  }

  // ----- Pages lost to failures -----

  /** The pages of entries a, ..., b - 1 of a record of failures. */
  function LostIn(lost: seq<nat>, a: nat, b: nat): set<nat> { set i | a <= i < b && i < |lost| :: lost[i] }

  /** The pages whose load failed from entry n of the record on. */
  function LostSince(lost: seq<nat>, n: nat): set<nat> { LostIn(lost, n, |lost|) }

  /** Since `before`, only loads of page `first` or later ones have failed. */
  ghost predicate LostFrom(before: seq<nat>, now: seq<nat>, first: nat) {
    before <= now && forall i | |before| <= i < |now| :: now[i] >= first
  }

  lemma NothingLost(lost: seq<nat>)
    ensures LostSince(lost, |lost|) == {}
  {
  }

  lemma LostOneMore(lost: seq<nat>, n: nat, p: nat)
    requires n <= |lost|
    ensures LostSince(lost + [p], n) == LostSince(lost, n) + {p}
  {
    var more := lost + [p];
    assert more[|lost|] == p;
    forall q | q in LostSince(lost, n)
      ensures q in LostSince(more, n)
    {
      var i :| n <= i < |lost| && lost[i] == q;
      assert more[i] == q;
    }
  }

  /** Whether the page in demand was lost is not blurred by what the prefetches after it lose. */
  lemma LostPage(before: seq<nat>, demanded: seq<nat>, now: seq<nat>, page: nat, first: nat)
    requires demanded == before || demanded == before + [page]
    requires LostFrom(demanded, now, first) && page < first
    ensures before <= now && (page in LostSince(now, |before|) <==> demanded != before)
  {
    if demanded != before {
      assert now[|before|] == demanded[|before|] == page;
    }
  }

  lemma EndsInOrAfter(address: nat, bytes: nat, pageBytes: nat)
    requires pageBytes > 0 && bytes > 0
    ensures PageOf(address, pageBytes) <= LastPage(address + bytes, pageBytes)
  {
    PagesOrdered(address, address + bytes - 1, pageBytes);
  }

  lemma PagesOrdered(a: nat, b: nat, pageBytes: nat)
    requires pageBytes > 0 && a <= b
    ensures PageOf(a, pageBytes) <= PageOf(b, pageBytes)
  {
    AddressSplits(b, pageBytes);
    NextPageStart(PageOf(b, pageBytes), pageBytes);
    BeforePage(a, PageOf(b, pageBytes) + 1, pageBytes);
  }

  /** Prefetches beyond the last page of a read make no difference to it. */
  lemma DeliveredDespite(data: seq<u8>, rom: seq<u8>, address: nat, pageBytes: nat, demanded: seq<nat>, now: seq<nat>, n: nat)
    requires pageBytes > 0 && data != [] && n <= |demanded| && Delivered(data, rom, address, pageBytes, LostSince(demanded, n))
    requires LostFrom(demanded, now, LastPage(address + |data|, pageBytes) + 1)
    ensures demanded <= now && Delivered(data, rom, address, pageBytes, LostSince(now, n))
  {
    hide PageOf, LostSince;
    var first := LastPage(address + |data|, pageBytes) + 1;
    SameLostBelow(demanded, now, n, first);
    forall x: nat | address <= x < address + |data|
      ensures PageOf(x, pageBytes) < first
    {
      PagesOrdered(x, address + |data| - 1, pageBytes);
    }
  }

  lemma SameLostBelow(demanded: seq<nat>, now: seq<nat>, n: nat, first: nat)
    requires n <= |demanded| && LostFrom(demanded, now, first)
    ensures forall p | p < first :: p in LostSince(now, n) <==> p in LostSince(demanded, n)
  {
    forall p | p < first
      ensures p in LostSince(now, n) <==> p in LostSince(demanded, n)
    {
      if p in LostSince(demanded, n) {
        var i :| n <= i < |demanded| && demanded[i] == p;
        assert now[i] == p;
      }
      if p in LostSince(now, n) {
        var i :| n <= i < |now| && now[i] == p;
        assert demanded[i] == p;
      }
    }
  }

  /** Within one page everything is the ROM's, or nothing is. */
  lemma OnePageDelivered(data: seq<u8>, rom: seq<u8>, address: nat, pageBytes: nat, missing: set<nat>)
    requires pageBytes > 0 && address + |data| <= |rom| && OffsetIn(address, pageBytes) + |data| <= pageBytes
    requires if PageOf(address, pageBytes) in missing then forall i | 0 <= i < |data| :: data[i] == 0xFF
             else data == rom[address..address + |data|]
    ensures Delivered(data, rom, address, pageBytes, missing)
  {
    var p := PageOf(address, pageBytes);
    AddressSplits(address, pageBytes);
    NextPageStart(p, pageBytes);
    hide PageOf, OffsetIn, PageStart;
    forall x: nat | address <= x < address + |data|
      ensures PageOf(x, pageBytes) == p
    {
      InPage(x, p, pageBytes);
    }
  }

  lemma BlockIsCopied(c: Cached, b: seq<u8>, rom: seq<u8>, address: u32, missing: set<nat>)
    requires c.pages != [] && c.pageBytes > 0 && c.size == |rom| && b != []
    requires Delivered(b, rom, address, c.pageBytes, missing)
    ensures missing == {} ==> b == rom[address..address + |b|]
    ensures After(c, Block(address, |b|)) == AfterBlock(c, Access(address, |b|))
  {
    hide PageOf, AfterBlock;
  }

  /** read_bytes of nothing, or of bytes outside the ROM, changes nothing. */
  lemma NoBlock(c: Cached, address: u32, bytes: nat)
    requires c.pages != [] && c.pageBytes > 0
    ensures bytes == 0 || address + bytes > c.size ==> After(c, Block(address, bytes)) == c
  {
    hide AfterBlock;
  }

  /** read_bytes, step by step. */
  lemma BlockSteps(before: Cached, noted: Cached, a: Access, k: nat)
    requires before.pages != [] && before.pageBytes > 0 && noted == before.(demand := Noted(before.demand, a))
    requires a.bytes > 0 && PagesCopied(a.address, before.pageBytes, a.bytes, a.bytes, k)
    ensures var p := PageOf(a.address, before.pageBytes);
      AfterBlock(before, a) == AfterPrefetch(WithPages(noted, p, k, false), LastPage(a.address + a.bytes, before.pageBytes),
                                             Follows(before.demand, a), Misses(noted, p, k))
    ensures a.address + a.bytes <= before.size ==> After(before, Block(a.address, a.bytes)) == AfterBlock(before, a)
  {
    hide PageOf, LastPage, WithPages, Misses, AfterPrefetch, Noted, Follows;
  }

  /** read_ptr, step by step. */
  lemma PtrSteps(before: Cached, noted: Cached, a: Access)
    requires before.pages != [] && before.pageBytes > 0 && noted == before.(demand := Noted(before.demand, a))
    ensures var p := PageOf(a.address, before.pageBytes);
      && SlotFor(before, p) == SlotFor(noted, p) && Hit(before, p) == Hit(noted, p)
      && AfterPtr(before, a)
         == AfterPrefetch(WithPage(noted, p, false), LastPage(a.address + a.bytes, before.pageBytes), Follows(before.demand, a), !Hit(before, p))
  {
    hide PageOf, LastPage, WithPage, AfterPrefetch, Noted, Follows;
  }

  lemma LatestAge(c: Cached, p: nat)
    requires Shaped(c) && p < |c.table|
    ensures c.pages != [] && WithPage(c, p, false).pages[SlotFor(c, p)].age == WithPage(c, p, false).clock
  {
    ShapedIsReal(c);
    hide Shaped;
  }

  /** Prefetches beyond the end of the ROM change nothing. */
  lemma {:induction false} NoPagesBeyond(c: Cached, first: nat, done: nat, count: nat)
    requires Shaped(c) && done <= count && PageStart(first + done, c.pageBytes) >= c.size
    ensures c.pages != [] && WithPages(c, first, count, true) == WithPages(c, first, done, true)
    decreases count
  {
    hide Shaped, WithPage, PageStart;
    ShapedIsReal(c);
    if done < count {
      NoPagesBeyond(c, first, done, count - 1);
      PageInRange(first + done, c.size, c.pageBytes);
      PageBeyond(WithPages(c, first, count - 1, true), first + count - 1);
    }
  }

  lemma PageBeyond(c: Cached, p: nat)
    requires c.pages != [] && p >= |c.table|
    ensures WithPage(c, p, true) == c
  {
    hide AfterHit, AfterLoad;
  }
}
