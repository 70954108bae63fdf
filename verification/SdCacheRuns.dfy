/** Whole runs of the SD-card cache: which caches show their readers the flat ROM, and which do not. */
module SdCacheRuns {
  import opened Basics
  import opened RomBytes
  import opened SdCachePages
  import opened SdCacheState
  import opened DemandAccess

  // ----- What every request keeps -----

  /** A load puts the page into its slot, whatever was there. */
  lemma LoadKeepsShape(c: Cached, p: nat, v: nat, prefetch: bool)
    requires Shaped(c) && p < |c.table| && v < |c.pages|
    ensures Shaped(AfterLoad(c, p, v, prefetch))
  {
    var page := Loaded(p, prefetch, c.clock + 1);
    var table := Forget(c.table, v);
    PinnedCountAt(c.pages, v, page);
    TouchKeepsPagesExact(c.pages, c.clock, v, page);
    TouchKeepsTableExact(table, c.pages, v, page);
    LinkKeepsTableExact(table, c.pages[v := page], v, p);
    hide PagesExact, TableExact, PinnedCount;
  }

  lemma HitKeepsShape(c: Cached, p: nat, prefetch: bool)
    requires Shaped(c) && Hit(c, p)
    ensures Shaped(AfterHit(c, p, prefetch))
  {
    var s := c.table[p];
    var page := Touched(c.pages[s], prefetch, c.clock + 1, PinnedCount(c.pages), MaxPinned(|c.pages|));
    PinnedCountAt(c.pages, s, page);
    TouchKeepsPagesExact(c.pages, c.clock, s, page);
    TouchKeepsTableExact(c.table, c.pages, s, page);
    hide PagesExact, TableExact, PinnedCount;
  }

  lemma WithPageKeepsShape(c: Cached, p: nat, prefetch: bool)
    requires Shaped(c)
    ensures Shaped(WithPage(c, p, prefetch))
  {
    hide PagesExact, TableExact, PinnedCount, AfterHit, AfterLoad;
    if Hit(c, p) {
      HitKeepsShape(c, p, prefetch);
    } else if p < |c.table| {
      LoadKeepsShape(c, p, Victim(c.pages), prefetch);
    }
  }

  lemma {:induction false} WithPagesKeepsShape(c: Cached, first: nat, count: nat, prefetch: bool)
    requires Shaped(c)
    ensures Shaped(WithPages(c, first, count, prefetch))
    decreases count
  {
    hide WithPage, Shaped;
    assert Shaped(c) ==> c.pages != [] by { ShapedIsReal(c); }
    if count > 0 {
      WithPagesKeepsShape(c, first, count - 1, prefetch);
      WithPageKeepsShape(WithPages(c, first, count - 1, prefetch), first + count - 1, prefetch);
    }
  }

  lemma ShapedIsReal(c: Cached)
    requires Shaped(c)
    ensures c.pages != [] && c.pageBytes > 0 && |c.table| == PageCount(c.size, c.pageBytes)
  {
  }

  /** The access pattern is no part of the shape. */
  lemma PatternIsFree(c: Cached, demand: Demand, base: nat)
    requires Shaped(c)
    ensures Shaped(c.(demand := demand)) && Shaped(c.(base := base))
  {
    hide PagesExact, TableExact, PinnedCount;
  }

  lemma PrefetchKeepsShape(c: Cached, current: nat, streaming: bool, missed: bool)
    requires Shaped(c)
    ensures Shaped(AfterPrefetch(c, current, streaming, missed))
  {
    ShapedIsReal(c);
    PatternIsFree(c, c.demand, current);
    hide Shaped, WithPages;
    WithPagesKeepsShape(c.(base := current), current + 1, PagesAhead(c, current, streaming, missed), true);
  }

  lemma PtrKeepsShape(c: Cached, a: Access)
    requires Shaped(c)
    ensures Shaped(AfterPtr(c, a))
  {
    ShapedIsReal(c);
    var noted := c.(demand := Noted(c.demand, a));
    PatternIsFree(c, noted.demand, c.base);
    hide Shaped, WithPage, AfterPrefetch, PageOf, LastPage, Noted, Hit, Follows;
    var p, last := PageOf(a.address, c.pageBytes), LastPage(a.address + a.bytes, c.pageBytes);
    var d := AfterPrefetch(WithPage(noted, p, false), last, Follows(c.demand, a), !Hit(c, p));
    assert AfterPtr(c, a) == d;
    hide *;
    WithPageKeepsShape(noted, p, false);
    PrefetchKeepsShape(WithPage(noted, p, false), last, Follows(c.demand, a), !Hit(c, p));
  }

  lemma BlockKeepsShape(c: Cached, a: Access)
    requires Shaped(c)
    ensures Shaped(AfterBlock(c, a))
  {
    ShapedIsReal(c);
    var noted := c.(demand := Noted(c.demand, a));
    PatternIsFree(c, noted.demand, c.base);
    hide Shaped, WithPages, AfterPrefetch, PageOf, LastPage, PagesMet, Noted, Misses, Follows;
    var p, last := PageOf(a.address, c.pageBytes), LastPage(a.address + a.bytes, c.pageBytes);
    var n := Max(PagesMet(a, c.pageBytes), 0);
    var d := AfterPrefetch(WithPages(noted, p, n, false), last, Follows(c.demand, a), Misses(noted, p, n));
    assert AfterBlock(c, a) == d;
    hide *;
    WithPagesKeepsShape(noted, p, n, false);
    PrefetchKeepsShape(WithPages(noted, p, n, false), last, Follows(c.demand, a), Misses(noted, p, n));
  }

  /** A failed load leaves the victim without a page. */
  lemma ForgetKeepsShape(c: Cached, v: nat)
    requires Shaped(c)
    ensures Shaped(c.(table := Forget(c.table, v)))
  {
    hide PagesExact, PinnedCount;
  }

  lemma NewFrameKeepsShape(c: Cached)
    requires Shaped(c)
    ensures Shaped(After(c, NewFrame))
  {
    SamePins(c.pages, Unprefetched(c.pages));
    hide PinnedCount;
  }

  lemma AheadKeepsShape(c: Cached, address: u32, bytes: nat)
    requires Shaped(c)
    ensures Shaped(After(c, Ahead(address, bytes)))
  {
    ShapedIsReal(c);
    hide Shaped, WithPages, PageOf, PagesMet;
    if 0 < bytes && address < c.size {
      var first := PageOf(address, c.pageBytes);
      var n := Max(PagesMet(Access(address, Min(bytes, c.size - address)), c.pageBytes), 0);
      WithPagesKeepsShape(c, first, n, true);
      assert After(c, Ahead(address, bytes)) == WithPages(c, first, n, true);
    }
  }

  /** Every request leaves the cache in shape. */
  lemma RequestsKeepShape(c: Cached, r: Request)
    requires Shaped(c)
    ensures Shaped(After(c, r))
  {
    ShapedIsReal(c);
    hide Shaped, AfterPtr, AfterBlock, WithPages, ByPointer, PageOf, PagesMet;
    match r
    case NewFrame => NewFrameKeepsShape(c);
    case Ahead(a, n) => AheadKeepsShape(c, a, n);
    case Block(a, n) => BlockKeepsShape(c, Access(a, n));
    case _ =>
      PtrKeepsShape(c, AccessOf(r));
      BlockKeepsShape(c, AccessOf(r));
  }

  // ----- Four slots are enough -----

  /** Prefetching one page or two leaves the slot that was touched last alone. */
  lemma {:induction false} PrefetchSparesLatest(c: Cached, keep: nat, first: nat, count: nat)
    requires Shaped(c) && |c.pages| >= 4 && keep < |c.pages| && c.pages[keep].valid && count <= 2
    requires NewerThan(c.pages, keep) == {}
    ensures var d := WithPages(c, first, count, true);
      && Shaped(d) && d.pages[keep].valid && d.pages[keep].index == c.pages[keep].index
      && |NewerThan(d.pages, keep)| <= count
    decreases count
  {
    if count > 0 {
      PrefetchSparesLatest(c, keep, first, count - 1);
      SparesOnce(WithPages(c, first, count - 1, true), keep, first + count - 1);
    }
  }

  lemma SparesOnce(c: Cached, keep: nat, p: nat)
    requires Shaped(c) && |c.pages| >= 4 && keep < |c.pages| && c.pages[keep].valid && |NewerThan(c.pages, keep)| <= 1
    ensures var d := WithPage(c, p, true);
      && Shaped(d) && d.pages[keep].valid && d.pages[keep].index == c.pages[keep].index
      && |NewerThan(d.pages, keep)| <= |NewerThan(c.pages, keep)| + 1
  {
    WithPageKeepsShape(c, p, true);
    assert c.pages[keep].age <= c.clock;
    if Hit(c, p) || p < |c.table| {
      var s := SlotFor(c, p);
      var d := WithPage(c, p, true);
      if !Hit(c, p) {
        RecentSlotIsNeverReplaced(c.pages, keep);
      }
      hide PagesExact, TableExact, PinnedCount, IsVictim, NewerThan;
      assert d.pages == c.pages[s := d.pages[s]];
      NewerAfterUpdate(c.pages, keep, s, d.pages[s]);
    }
  }

  /** After a demand touch of a page of the ROM its slot holds it, and nothing is newer. */
  lemma DemandIsLatest(c: Cached, p: nat)
    requires Shaped(c) && p < |c.table|
    ensures var d := WithPage(c, p, false); var s := SlotFor(c, p);
      d.pages[s].valid && d.pages[s].index == p && NewerThan(d.pages, s) == {}
  {
    WithPageKeepsShape(c, p, false);
    var d := WithPage(c, p, false);
    var s := SlotFor(c, p);
    assert d.pages[s].valid && d.pages[s].index == p && d.pages[s].age == d.clock;
    hide WithPage, SlotFor;
    NothingNewerThanTheLatest(d.pages, d.clock, s);
  }

  /** With four slots or more, a pointer still addresses its page when the reader uses it. */
  lemma FourSlotsShowThePage(c: Cached, a: Access)
    requires Shaped(c) && |c.pages| >= 4 && PageOf(a.address, c.pageBytes) < |c.table|
    ensures PageShown(c, a) == PageOf(a.address, c.pageBytes)
  {
    ShapedIsReal(c);
    var noted := c.(demand := Noted(c.demand, a));
    PatternIsFree(c, noted.demand, c.base);
    hide Shaped, WithPage, Victim, PageOf, LastPage, Noted, Hit, Follows, PagesAhead, AfterPrefetch, NewerThan, PageCount;
    var p, current := PageOf(a.address, c.pageBytes), LastPage(a.address + a.bytes, c.pageBytes);
    var d := WithPage(noted, p, false);
    assert Hit(noted, p) == Hit(c, p) by { HitIsTable(c, noted, p); }
    assert SlotFor(noted, p) == SlotFor(c, p);
    assert AfterPtr(c, a) == AfterPrefetch(d, current, Follows(c.demand, a), !Hit(c, p));
    DemandIsLatest(noted, p);
    WithPageKeepsShape(noted, p, false);
    var s := SlotFor(c, p);
    hide SlotFor, AfterPtr;
    PrefetchSpares(d, s, current, Follows(c.demand, a), !Hit(c, p));
  }

  lemma HitIsTable(c: Cached, d: Cached, p: nat)
    requires c.table == d.table && |c.pages| == |d.pages|
    ensures Hit(c, p) == Hit(d, p)
  {
  }

  lemma PrefetchSpares(d: Cached, keep: nat, current: nat, streaming: bool, missed: bool)
    requires Shaped(d) && |d.pages| >= 4 && keep < |d.pages| && d.pages[keep].valid && NewerThan(d.pages, keep) == {}
    ensures AfterPrefetch(d, current, streaming, missed).pages[keep].index == d.pages[keep].index
  {
    hide Shaped, NewerThan, WithPages, PagesAhead;
    var ahead := PagesAhead(d, current, streaming, missed);
    if ahead > 0 {
      PatternIsFree(d, d.demand, current);
      AheadIsFew(d, current, streaming, missed);
      PrefetchSparesLatest(d.(base := current), keep, current + 1, ahead);
    }
  }

  lemma AheadIsFew(c: Cached, current: nat, streaming: bool, missed: bool)
    ensures PagesAhead(c, current, streaming, missed) <= 2
  {
  }

  lemma EmptyIsShaped(size: nat, pageBytes: nat, slots: nat)
    requires size > 0 && pageBytes > 0 && slots > 0
    ensures Shaped(Empty(size, pageBytes, slots))
  {
    NothingPinned(Empty(size, pageBytes, slots).pages);
    hide PageCount, PinnedCount;
  }

  lemma {:induction false} RunKeepsShape(c: Cached, requests: seq<Request>)
    requires Shaped(c)
    ensures c.pages != [] && c.pageBytes > 0 && Shaped(AfterAll(c, requests))
    ensures AfterAll(c, requests).size == c.size
    decreases |requests|
  {
    ShapedIsReal(c);
    hide Shaped, After;
    if requests != [] {
      var init, last := requests[..|requests| - 1], requests[|requests| - 1];
      RunKeepsShape(c, init);
      RequestsKeepShape(AfterAll(c, init), last);
      SizeStays(AfterAll(c, init), last);
    }
  }

  lemma SizeStays(c: Cached, r: Request)
    requires c.pages != [] && c.pageBytes > 0
    ensures After(c, r).size == c.size
  {
    hide PageOf, LastPage, PagesMet, Misses, Hit, Noted, Follows, WithPage, WithPages;
  }

  /** The bytes of an address's own page are the flat ROM's. */
  lemma OwnPageIsFlat(rom: seq<u8>, pageBytes: nat, address: nat, n: nat)
    requires pageBytes > 0 && address + n <= |rom|
    ensures PageBytes(rom, pageBytes, PageOf(address, pageBytes), OffsetIn(address, pageBytes), n) == rom[address..address + n]
  {
    AddressSplits(address, pageBytes);
    hide PageOf, OffsetIn, PageStart;
  }

  lemma FlatNumber(rom: seq<u8>, r: Request)
    requires (r.ByteAt? || r.HalfAt? || r.WordAt?) && r.address + AccessOf(r).bytes <= |rom|
    ensures FlatAnswer(rom, r) == Number(LittleEndian(rom[r.address..r.address + AccessOf(r).bytes]))
  {
    hide Half, Word;
  }

  /** A number within one page is read correctly whenever its own page is shown. */
  lemma ShownIsFlat(rom: seq<u8>, c: Cached, r: Request)
    requires c.pages != [] && c.pageBytes > 0 && c.size == |rom| && ByPointer(c, r)
    requires PageShown(c, AccessOf(r)) == PageOf(r.address, c.pageBytes)
    ensures CacheAnswer(rom, c, r) == FlatAnswer(rom, r)
  {
    OwnPageIsFlat(rom, c.pageBytes, r.address, AccessOf(r).bytes);
    FlatNumber(rom, r);
    hide PageShown, PageOf, OffsetIn, PageBytes, LittleEndian, FlatAnswer;
  }

  /** With four slots or more every answer of every run is the flat ROM's. */
  lemma FourSlotsAreFlat(rom: seq<u8>, c: Cached, requests: seq<Request>, i: nat)
    requires Shaped(c) && c.size == |rom| && |c.pages| >= 4 && i < |requests|
    ensures c.pages != [] && c.pageBytes > 0 && AnswerAt(rom, c, requests, i) == FlatAnswer(rom, requests[i])
  {
    RunKeepsShape(c, requests[..i]);
    var d := AfterAll(c, requests[..i]);
    ShapedIsReal(d);
    hide AfterAll, Shaped, FlatAnswer, CacheAnswer, PageShown;
    FourSlotsAnswerFlat(rom, d, requests[i]);
  }

  lemma FourSlotsAnswerFlat(rom: seq<u8>, c: Cached, r: Request)
    requires Shaped(c) && c.size == |rom| && |c.pages| >= 4
    ensures c.pages != [] && c.pageBytes > 0 && CacheAnswer(rom, c, r) == FlatAnswer(rom, r)
  {
    ShapedIsReal(c);
    hide Shaped, FlatAnswer, PageShown;
    if ByPointer(c, r) {
      AddressSplits(r.address, c.pageBytes);
      PageInRange(PageOf(r.address, c.pageBytes), |rom|, c.pageBytes);
      FourSlotsShowThePage(c, AccessOf(r));
      ShownIsFlat(rom, c, r);
    }
  }

  // ----- Fewer than four are not -----

  /** The addresses of the first two pages, and their pages. */
  lemma FirstTwoPages(pageBytes: nat, o: nat)
    requires o < pageBytes
    ensures PageOf(o, pageBytes) == 0 && OffsetIn(o, pageBytes) == o && LastPage(o + 1, pageBytes) == 0
    ensures PageOf(pageBytes, pageBytes) == 1 && OffsetIn(pageBytes, pageBytes) == 0
    ensures pageBytes > 1 ==> LastPage(pageBytes + 1, pageBytes) == 1
  {
  }

  /** A load over the slot that the victim rule names. */
  lemma LoadsOver(c: Cached, p: nat, v: nat, prefetch: bool)
    requires c.pages != [] && PagesExact(c.pages, c.clock) && !Hit(c, p) && p < |c.table| && IsVictim(c.pages, v)
    ensures SlotFor(c, p) == v && WithPage(c, p, prefetch) == AfterLoad(c, p, v, prefetch)
  {
    VictimIsUnique(c.pages, c.clock, v);
  }

  /** One prefetch page ahead after a read that ended in page `current`. */
  lemma OneAhead(c: Cached, current: nat, streaming: bool, missed: bool)
    requires c.pages != [] && PagesAhead(c, current, streaming, missed) == 1
    ensures AfterPrefetch(c, current, streaming, missed) == WithPage(c.(base := current), current + 1, true)
  {
    var d := c.(base := current);
    hide WithPage;
    assert WithPages(d, current + 1, 0, true) == d;
  }

  lemma TwoAhead(c: Cached, current: nat, streaming: bool, missed: bool)
    requires c.pages != [] && PagesAhead(c, current, streaming, missed) == 2
    ensures AfterPrefetch(c, current, streaming, missed)
         == WithPage(WithPage(c.(base := current), current + 1, true), current + 2, true)
  {
    var d := c.(base := current);
    hide WithPage;
    assert WithPages(d, current + 1, 0, true) == d;
    assert WithPages(d, current + 1, 1, true) == WithPage(d, current + 1, true);
  }

  /** The state after the first read of byte 0: page 0 was loaded, then page 1 was prefetched. */
  ghost function FirstState(size: nat, pageBytes: nat, slots: nat): Cached
    requires pageBytes > 0 && slots > 0 && PageCount(size, pageBytes) > 3
  {
    var noted := Empty(size, pageBytes, slots).(demand := Demand(true, 1, 0));
    AfterLoad(AfterLoad(noted, 0, 0, false).(base := 0), 1, if slots == 1 then 0 else 1, true)
  }

  /** The first load of a new cache. */
  lemma FirstLoad(c: Cached)
    requires c.pages != [] && c.table != [] && c.table[0] == -1 && forall s :: 0 <= s < |c.pages| ==> c.pages[s] == EMPTY_PAGE
    ensures !Hit(c, 0) && SlotFor(c, 0) == 0 && WithPage(c, 0, false) == AfterLoad(c, 0, 0, false)
  {
    assert c.pages[0] == EMPTY_PAGE;
    assert IsVictim(c.pages, 0);
    LoadsOver(c, 0, 0, false);
  }

  /** The prefetch that follows it. */
  lemma FirstPrefetch(c: Cached)
    requires c.pages != [] && |c.table| > 1 && c.table[1] == -1 && c.clock == 1
    requires c.pages[0] == Loaded(0, false, 1) && forall s :: 1 <= s < |c.pages| ==> c.pages[s] == EMPTY_PAGE
    ensures WithPage(c, 1, true) == AfterLoad(c, 1, if |c.pages| == 1 then 0 else 1, true)
  {
    var v := if |c.pages| == 1 then 0 else 1;
    assert |c.pages| > 1 ==> c.pages[1] == EMPTY_PAGE;
    assert IsVictim(c.pages, v);
    LoadsOver(c, 1, v, true);
  }

  lemma FirstRead(size: nat, pageBytes: nat, slots: nat)
    requires pageBytes >= 4 && slots > 0 && PageCount(size, pageBytes) > 3 && size > 0
    ensures var c := Empty(size, pageBytes, slots);
      && ByPointer(c, ByteAt(0)) && SlotFor(c, 0) == 0
      && After(c, ByteAt(0)) == AfterPtr(c, Access(0, 1)) == FirstState(size, pageBytes, slots)
  {
    FirstTwoPages(pageBytes, 0);
    hide PageOf, OffsetIn, LastPage, PageCount, WithPage, Hit, SlotFor, WithPages;
    var c := Empty(size, pageBytes, slots);
    var noted := c.(demand := Demand(true, 1, 0));
    FirstLoad(c);
    FirstLoad(noted);
    var d := AfterLoad(noted, 0, 0, false);
    OneAhead(d, 0, false, true);
    FirstPrefetch(d.(base := 0));
  }

  /** The slots of a small cache: page 0, read `heat` times, and page 1, prefetched once. */
  function WarmPages(slots: nat, heat: nat, age: nat): seq<Page> {
    var two := [Page(true, false, heat == PIN_THRESHOLD, 0, age, heat), Page(true, true, false, 1, 2, 0)];
    if slots == 2 then two else two + [EMPTY_PAGE]
  }

  /** A cache of two or three slots that has read page 0 `heat` times, at last with a read up to `end`. */
  ghost predicate Warm(c: Cached, slots: nat, heat: nat, end: nat) {
    && 2 <= slots <= 3 && 1 <= heat <= PIN_THRESHOLD && c.pageBytes >= 4 && PageCount(c.size, c.pageBytes) == |c.table| > 3
    && c.table[0] == 0 && c.table[1] == 1 && c.table[2] == -1 == c.table[3]
    && |c.pages| == slots && c.pages == WarmPages(slots, heat, c.pages[0].age)
    && 2 != c.pages[0].age <= c.clock && 2 <= c.clock
    && c.base == 0 && c.demand.seen && c.demand.end == end
  }

  lemma FirstStateIsWarm(size: nat, pageBytes: nat, slots: nat)
    requires pageBytes >= 4 && 2 <= slots <= 3 && PageCount(size, pageBytes) > 3
    ensures var c := FirstState(size, pageBytes, slots); Warm(c, slots, 1, 1) && c.demand.run == 0
  {
    hide PageCount;
    var c := FirstState(size, pageBytes, slots);
    assert c.pages == WarmPages(slots, 1, 1);
  }

  lemma WarmPins(slots: nat, heat: nat, age: nat)
    requires 2 <= slots <= 3
    ensures PinnedCount(WarmPages(slots, heat, age)) == Bit(heat == PIN_THRESHOLD)
  {
    var two := WarmPages(2, heat, age);
    assert two[..1] == [two[0]] && [two[0]][..0] == [];
    assert PinnedCount([two[0]]) == Bit(heat == PIN_THRESHOLD);
    assert PinnedCount(two) == Bit(heat == PIN_THRESHOLD);
    if slots == 3 {
      assert WarmPages(3, heat, age)[..2] == two;
    }
  }

  /** A byte of the first page that is there, read when no prefetch is due: its slot is touched, no more. */
  lemma QuietRead(c: Cached, o: u32)
    requires c.pages != [] && o < c.pageBytes <= c.size && Hit(c, 0) && c.base == 0
    ensures After(c, ByteAt(o)) == AfterHit(c.(demand := Noted(c.demand, Access(o, 1))), 0, false)
  {
    FirstTwoPages(c.pageBytes, o);
    hide PageOf, OffsetIn, LastPage, Noted, AfterHit, WithPages;
    assert ByPointer(c, ByteAt(o));
  }

  /** The slots after another demand read of page 0. */
  lemma WarmHit(c: Cached, slots: nat, heat: nat, end: nat)
    requires Warm(c, slots, heat, end)
    ensures Hit(c, 0)
    ensures var d := AfterHit(c, 0, false); var warmer := if heat < PIN_THRESHOLD then heat + 1 else heat;
      d.pages == WarmPages(slots, warmer, d.clock)
  {
    WarmPins(slots, heat, c.pages[0].age);
    hide PageCount, PinnedCount;
  }

  lemma WarmForgetsPattern(c: Cached, slots: nat, heat: nat, end: nat, demand: Demand)
    requires Warm(c, slots, heat, end) && demand.seen
    ensures Warm(c.(demand := demand), slots, heat, demand.end)
  {
    hide PageCount, WarmPages;
  }

  /** Another read of a byte of page 0 warms page 0 and prefetches nothing. */
  lemma AnotherRead(c: Cached, slots: nat, heat: nat, end: nat, o: u32)
    requires Warm(c, slots, heat, end) && o < c.pageBytes <= c.size && o + 1 < WORD_RANGE
    ensures c.pages != [] && c.pageBytes > 0
    ensures var d := After(c, ByteAt(o)); var warmer := if heat < PIN_THRESHOLD then heat + 1 else heat;
      && Warm(d, slots, warmer, o + 1) && d.size == c.size && d.pageBytes == c.pageBytes
      && d.demand == Noted(c.demand, Access(o, 1)) && d.pages[0].age == d.clock
  {
    hide After, PageCount, Hit;
    var noted := c.(demand := Noted(c.demand, Access(o, 1)));
    WarmForgetsPattern(c, slots, heat, end, noted.demand);
    WarmHit(c, slots, heat, end);
    WarmHit(noted, slots, heat, o + 1);
    QuietRead(c, o);
  }

  /** Page 0 pinned, page 1 touched just now, pages 2 and 3 not there; a third slot is empty. */
  ghost predicate Crowded(c: Cached) {
    && 2 <= |c.pages| <= 3 && |c.table| > 3 && c.table[2] == -1 == c.table[3]
    && c.pages[0].valid && c.pages[0].pinned && c.pages[1].valid && !c.pages[1].pinned
    && c.pages[0].age < c.pages[1].age == c.clock
    && (|c.pages| == 3 ==> c.pages[2] == EMPTY_PAGE)
  }

  /** Prefetching pages 2 and 3 then replaces page 1. */
  lemma CrowdedLosesPageOne(c: Cached)
    requires Crowded(c)
    ensures WithPage(WithPage(c, 2, true), 3, true).pages[1].index == 3
  {
    hide PinnedCount;
    var v := if |c.pages| == 2 then 1 else 2;
    assert |c.pages| == 3 ==> !c.pages[2].valid;
    assert IsVictim(c.pages, v);
    LoadsOver(c, 2, v, true);
    var d := AfterLoad(c, 2, v, true);
    assert !Hit(d, 3) && AllValid(d.pages) && !d.pages[1].pinned;
    assert IsVictim(d.pages, 1);
    LoadsOver(d, 3, 1, true);
  }

  /** The first byte of page 1, read at the end of a streak: its slot then shows page 3. */
  lemma LastRead(c: Cached, slots: nat)
    requires c.pageBytes + 1 < WORD_RANGE && Warm(c, slots, PIN_THRESHOLD, c.pageBytes)
    requires 3 <= c.demand.run < 100 && c.pages[0].age == c.clock && c.size > c.pageBytes
    ensures ByPointer(c, ByteAt(c.pageBytes)) && PageShown(c, Access(c.pageBytes, 1)) == 3
  {
    var B := c.pageBytes;
    FirstTwoPages(B, 0);
    hide PageOf, OffsetIn, LastPage, PageCount, PinnedCount, Victim;
    var noted := c.(demand := Noted(c.demand, Access(B, 1)));
    var d := AfterHit(noted, 1, false);
    assert AfterPtr(c, Access(B, 1)) == AfterPrefetch(d, 1, true, false);
    TwoAhead(d, 1, true, false);
    CrowdedLosesPageOne(d.(base := 1));
  }

  /** Byte 0, `n` times over. */
  function Hammer(n: nat): seq<Request> {
    if n == 0 then [] else Hammer(n - 1) + [ByteAt(0)]
  }

  lemma OneRequestMore(c: Cached, requests: seq<Request>, r: Request)
    requires c.pages != [] && c.pageBytes > 0
    ensures AfterAll(c, requests + [r]) == After(AfterAll(c, requests), r)
  {
    assert (requests + [r])[..|requests|] == requests;
    hide After;
  }

  lemma HammerOnce(c: Cached, n: nat)
    requires c.pages != [] && c.pageBytes > 0 && n > 0
    ensures AfterAll(c, Hammer(n)) == if n == 1 then After(c, ByteAt(0)) else After(AfterAll(c, Hammer(n - 1)), ByteAt(0))
  {
    hide After;
    OneRequestMore(c, Hammer(n - 1), ByteAt(0));
    if n == 1 {
      assert Hammer(n - 1) == [];
    }
  }

  /** A ROM of more than three pages in a cache of two or three slots. */
  ghost predicate Small(size: nat, pageBytes: nat, slots: nat) {
    && 4 <= pageBytes < WORD_RANGE - 1 && 2 <= slots <= 3 && size >= pageBytes && PageCount(size, pageBytes) > 3
  }

  /** Warm from `n` reads of byte 0 and then `more` reads in a row. */
  ghost predicate WarmRun(c: Cached, size: nat, pageBytes: nat, slots: nat, n: nat, more: nat) {
    && c.size == size && c.pageBytes == pageBytes && slots > 0
    && Warm(c, slots, n, if more == 0 then 1 else Max(pageBytes - 4 + more, 0))
    && more - 1 <= c.demand.run <= more && (more > 0 ==> c.pages[0].age == c.clock)
  }

  lemma FirstReadIsWarm(size: nat, pageBytes: nat, slots: nat)
    requires Small(size, pageBytes, slots) && Empty(size, pageBytes, slots).pages != []
    ensures WarmRun(After(Empty(size, pageBytes, slots), ByteAt(0)), size, pageBytes, slots, 1, 0)
  {
    hide PageCount, Warm, After, FirstState;
    FirstRead(size, pageBytes, slots);
    FirstStateIsWarm(size, pageBytes, slots);
    SizeStays(Empty(size, pageBytes, slots), ByteAt(0));
  }

  lemma HammerIsWarm(c: Cached, size: nat, pageBytes: nat, slots: nat, n: nat)
    requires Small(size, pageBytes, slots) && n < PIN_THRESHOLD && WarmRun(c, size, pageBytes, slots, n, 0)
    ensures c.pages != [] && WarmRun(After(c, ByteAt(0)), size, pageBytes, slots, n + 1, 0)
  {
    WarmEnd(c, slots, n, 1);
    hide PageCount, Warm, After;
    AnotherRead(c, slots, n, 1, 0);
  }

  /** A cache that is warm after its first read of byte 0. */
  ghost predicate Fresh(c: Cached, size: nat, pageBytes: nat, slots: nat) {
    && Small(size, pageBytes, slots) && c.pages != [] && c.pageBytes > 0
    && WarmRun(After(c, ByteAt(0)), size, pageBytes, slots, 1, 0)
  }

  lemma {:induction false} HammerWarms(c: Cached, size: nat, pageBytes: nat, slots: nat, n: nat)
    requires Fresh(c, size, pageBytes, slots) && 1 <= n <= PIN_THRESHOLD
    ensures WarmRun(AfterAll(c, Hammer(n)), size, pageBytes, slots, n, 0)
  {
    hide Small, WarmRun, AfterAll, Hammer, After;
    HammerOnce(c, n);
    if n > 1 {
      HammerWarms(c, size, pageBytes, slots, n - 1);
      HammerIsWarm(AfterAll(c, Hammer(n - 1)), size, pageBytes, slots, n - 1);
    }
  }

  lemma WarmEnd(c: Cached, slots: nat, heat: nat, end: nat)
    requires Warm(c, slots, heat, end)
    ensures c.pages != [] && c.pageBytes >= 4 && c.demand.end == end && c.demand.seen
  {
    hide PageCount, WarmPages;
  }

  /** Byte 0 `n` times, then the first `more` of the last four bytes of page 0. */
  function Streak(pageBytes: nat, n: nat, more: nat): seq<Request>
    requires 4 <= pageBytes < WORD_RANGE && more <= 4
  {
    if more == 0 then Hammer(n) else Streak(pageBytes, n, more - 1) + [ByteAt(pageBytes - 5 + more)]
  }

  lemma StreakOnce(c: Cached, pageBytes: nat, n: nat, more: nat)
    requires c.pages != [] && c.pageBytes > 0 && 4 <= pageBytes < WORD_RANGE && 0 < more <= 4
    ensures AfterAll(c, Streak(pageBytes, n, more))
         == After(AfterAll(c, Streak(pageBytes, n, more - 1)), ByteAt(pageBytes - 5 + more))
  {
    hide After, AfterAll, Hammer;
    OneRequestMore(c, Streak(pageBytes, n, more - 1), ByteAt(pageBytes - 5 + more));
  }

  /** A read that follows the last one lengthens the run by one. */
  lemma RunGoesOn(d: Demand, a: Access, more: nat)
    requires d.seen && 0 < more <= 4 && more - 2 <= d.run <= more - 1 && (more > 1 ==> d.end == a.address)
    ensures more - 1 <= Noted(d, a).run <= more
  {
  }

  lemma SmallFits(size: nat, pageBytes: nat, slots: nat)
    requires Small(size, pageBytes, slots)
    ensures 4 <= pageBytes < WORD_RANGE - 1 && size >= pageBytes && 2 <= slots <= 3 && PageCount(size, pageBytes) > 3
  {
  }

  lemma StreakIsWarm(c: Cached, size: nat, pageBytes: nat, slots: nat, n: nat, more: nat)
    requires Small(size, pageBytes, slots) && n == PIN_THRESHOLD && 0 < more <= 4
    requires WarmRun(c, size, pageBytes, slots, n, more - 1)
    ensures c.pages != [] && WarmRun(After(c, ByteAt(pageBytes - 5 + more)), size, pageBytes, slots, n, more)
  {
    hide Small, PageCount, Warm, After, Noted;
    SmallFits(size, pageBytes, slots);
    var end := if more == 1 then 1 else pageBytes - 5 + more;
    var o := pageBytes - 5 + more;
    WarmEnd(c, slots, n, end);
    RunGoesOn(c.demand, Access(o, 1), more);
    AnotherRead(c, slots, n, end, o);
  }

  lemma {:induction false} StreakWarms(c: Cached, size: nat, pageBytes: nat, slots: nat, n: nat, more: nat)
    requires Fresh(c, size, pageBytes, slots) && 4 <= pageBytes < WORD_RANGE && n == PIN_THRESHOLD && more <= 4
    ensures WarmRun(AfterAll(c, Streak(pageBytes, n, more)), size, pageBytes, slots, n, more)
  {
    hide Small, WarmRun, AfterAll, After, Hammer;
    if more == 0 {
      HammerWarms(c, size, pageBytes, slots, n);
    } else {
      StreakOnce(c, pageBytes, n, more);
      StreakWarms(c, size, pageBytes, slots, n, more - 1);
      StreakIsWarm(AfterAll(c, Streak(pageBytes, n, more - 1)), size, pageBytes, slots, n, more);
    }
  }

  /** A slot that shows the start of another page, at byte `b`, answers wrongly if the bytes differ. */
  lemma WrongPageShown(rom: seq<u8>, c: Cached, a: u32, shown: nat, b: nat)
    requires c.pages != [] && c.pageBytes > 0 && c.size == |rom|
    requires a < |rom| && ByPointer(c, ByteAt(a)) && OffsetIn(a, c.pageBytes) == 0
    requires PageShown(c, Access(a, 1)) == shown && PageStart(shown, c.pageBytes) == b < |rom| && rom[b] != rom[a]
    ensures CacheAnswer(rom, c, ByteAt(a)) != FlatAnswer(rom, ByteAt(a))
  {
    hide PageShown, OffsetIn, PageOf, ByPointer, PageStart;
  }

  lemma TwoOrThreeSlotsMisread(rom: seq<u8>, pageBytes: nat, slots: nat) returns (requests: seq<Request>)
    requires 4 <= pageBytes < WORD_RANGE - 1 && 2 <= slots <= 3 && |rom| > 3 * pageBytes && rom[pageBytes] != rom[3 * pageBytes]
    ensures requests != []
    ensures AnswerAt(rom, Empty(|rom|, pageBytes, slots), requests, |requests| - 1) != FlatAnswer(rom, requests[|requests| - 1])
  {
    var c0, n := Empty(|rom|, pageBytes, slots), PIN_THRESHOLD;
    PageInRange(3, |rom|, pageBytes);
    FirstReadIsWarm(|rom|, pageBytes, slots);
    StreakWarms(c0, |rom|, pageBytes, slots, n, 4);
    hide AfterAll, Empty, After, Hammer, Streak;
    var before := Streak(pageBytes, n, 4);
    var c, last := AfterAll(c0, before), ByteAt(pageBytes);
    hide PageCount, WarmPages;
    LastRead(c, slots);
    FirstTwoPages(pageBytes, 0);
    hide Warm;
    WrongPageShown(rom, c, pageBytes, 3, 3 * pageBytes);
    requests := before + [last];
    assert requests[..|requests| - 1] == before;
  }

  lemma OneSlotMisreads(rom: seq<u8>, pageBytes: nat) returns (requests: seq<Request>)
    requires 4 <= pageBytes < WORD_RANGE - 1 && |rom| > 3 * pageBytes && rom[0] != rom[pageBytes]
    ensures requests != []
    ensures AnswerAt(rom, Empty(|rom|, pageBytes, 1), requests, |requests| - 1) != FlatAnswer(rom, requests[|requests| - 1])
  {
    var c := Empty(|rom|, pageBytes, 1);
    PageInRange(3, |rom|, pageBytes);
    FirstRead(|rom|, pageBytes, 1);
    FirstTwoPages(pageBytes, 0);
    assert PageShown(c, Access(0, 1)) == FirstState(|rom|, pageBytes, 1).pages[0].index == 1;
    assert PageStart(1, pageBytes) == pageBytes;
    hide After, AfterPtr, FirstState, PageShown;
    WrongPageShown(rom, c, 0, 1, pageBytes);
    requests := [ByteAt(0)];
    assert requests[..0] == [];
  }

  /** Every answer of every run from a new cache is the flat ROM's. */
  ghost predicate AlwaysFlat(rom: seq<u8>, pageBytes: nat, slots: nat)
    requires pageBytes > 0 && slots > 0
  {
    forall requests: seq<Request>, i: nat :: i < |requests| ==>
      AnswerAt(rom, Empty(|rom|, pageBytes, slots), requests, i) == FlatAnswer(rom, requests[i])
  }

  lemma FourSlotsAlwaysFlat(rom: seq<u8>, pageBytes: nat, slots: nat)
    requires rom != [] && pageBytes > 0 && slots >= 4
    ensures AlwaysFlat(rom, pageBytes, slots)
  {
    hide AnswerAt, FlatAnswer;
    EmptyIsShaped(|rom|, pageBytes, slots);
    forall requests: seq<Request>, i: nat | i < |requests|
      ensures AnswerAt(rom, Empty(|rom|, pageBytes, slots), requests, i) == FlatAnswer(rom, requests[i])
    {
      FourSlotsAreFlat(rom, Empty(|rom|, pageBytes, slots), requests, i);
    }
  }

  /**
   On a ROM of more than three pages, of which page 0 and page 1, and page 1 and page 3, begin with different
   bytes, readers always see the flat ROM iff there are four slots or more.
   */
  lemma FlatIffFourSlots(rom: seq<u8>, pageBytes: nat, slots: nat)
    requires slots > 0 && 4 <= pageBytes < WORD_RANGE - 1 && |rom| > 3 * pageBytes
    requires rom[0] != rom[pageBytes] && rom[pageBytes] != rom[3 * pageBytes]
    ensures AlwaysFlat(rom, pageBytes, slots) <==> slots >= 4
  {
    hide AnswerAt, FlatAnswer;
    if slots >= 4 {
      FourSlotsAlwaysFlat(rom, pageBytes, slots);
    } else if slots == 1 {
      var requests := OneSlotMisreads(rom, pageBytes);
    } else {
      var requests := TwoOrThreeSlotsMisread(rom, pageBytes, slots);
    }
  }

  /** Every ROM in pages of any size is shown as it is. */
  ghost predicate AnyRomIsFlat(slots: nat)
    requires slots > 0
  {
    forall rom: seq<u8>, pageBytes: nat :: rom != [] && pageBytes > 0 ==> AlwaysFlat(rom, pageBytes, slots)
  }

  /** A cache is good for every ROM exactly if it has four slots or more. */
  lemma AnyRomIsFlatIffFourSlots(slots: nat)
    requires slots > 0
    ensures AnyRomIsFlat(slots) <==> slots >= 4
  {
    hide AlwaysFlat;
    if slots >= 4 {
      forall rom: seq<u8>, pageBytes: nat | rom != [] && pageBytes > 0
        ensures AlwaysFlat(rom, pageBytes, slots)
      {
        FourSlotsAlwaysFlat(rom, pageBytes, slots);
      }
    } else {
      var rom: seq<u8> := seq<u8>(13, i requires 0 <= i < 13 => i);
      FlatIffFourSlots(rom, 4, slots);
      assert !AlwaysFlat(rom, 4, slots);
    }
  }
}
