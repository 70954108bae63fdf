/**
 What the SD-card ROM provider does to its bookkeeping as long as the card does not fail, request by
 request, and what its readers then see. The object of module SdCacheProvider is proved against it.
 */
module SdCacheState {
  import opened Basics
  import opened RomBytes
  import opened SdCachePages
  import opened DemandAccess

  const NO_PAGE: nat := 0xFFFF_FFFF

  /** The page table, the slots, the clock that ages them, and the access pattern. */
  datatype Cached = Cached(
    size: nat, pageBytes: nat, table: seq<int>, pages: seq<Page>, clock: nat, demand: Demand, base: nat)

  /** What holds of every reachable state. */
  ghost predicate Shaped(c: Cached) {
    && c.size > 0 && c.pageBytes > 0 && c.pages != []
    && |c.table| == PageCount(c.size, c.pageBytes)
    && TableExact(c.table, c.pages)
    && PagesExact(c.pages, c.clock)
    && PinnedCount(c.pages) <= MaxPinned(|c.pages|)
  }

  function Empty(size: nat, pageBytes: nat, slots: nat): Cached
    requires pageBytes > 0
  {
    Cached(size, pageBytes, seq(PageCount(size, pageBytes), _ => -1), seq(slots, _ => EMPTY_PAGE), 0, NO_DEMAND, NO_PAGE)
  }

  predicate Hit(c: Cached, p: nat) {
    p < |c.table| && 0 <= c.table[p] < |c.pages|
  }

  /** The slot that serves page p: the one it is in, or the one it will replace. */
  ghost function SlotFor(c: Cached, p: nat): (s: nat)
    requires c.pages != []
    ensures s < |c.pages|
  {
    if Hit(c, p) then c.table[p] else Victim(c.pages)
  }

  /** The table without its references to slot v. */
  function Forget(table: seq<int>, v: nat): (r: seq<int>)
    ensures |r| == |table| && forall p :: 0 <= p < |table| ==> r[p] == if table[p] == v then -1 else table[p]
  {
    seq(|table|, p requires 0 <= p < |table| => if table[p] == v then -1 else table[p])
  }

  function Unprefetched(pages: seq<Page>): (r: seq<Page>)
    ensures |r| == |pages| && forall s :: 0 <= s < |pages| ==> r[s] == pages[s].(prefetched := false)
  {
    seq(|pages|, s requires 0 <= s < |pages| => pages[s].(prefetched := false))
  }

  /** The states differ in their slots, their table and their clock only. */
  ghost predicate SameSetup(c: Cached, d: Cached) {
    && d == c.(table := d.table, pages := d.pages, clock := d.clock)
    && |d.table| == |c.table| && |d.pages| == |c.pages|
  }

  ghost function AfterHit(c: Cached, p: nat, prefetch: bool): Cached
    requires Hit(c, p)
  {
    var s := c.table[p];
    var touched := Touched(c.pages[s], prefetch, c.clock + 1, PinnedCount(c.pages), MaxPinned(|c.pages|));
    c.(pages := c.pages[s := touched], clock := c.clock + 1)
  }

  ghost function AfterLoad(c: Cached, p: nat, v: nat, prefetch: bool): Cached
    requires p < |c.table| && v < |c.pages|
  {
    c.(table := Forget(c.table, v)[p := v], pages := c.pages[v := Loaded(p, prefetch, c.clock + 1)], clock := c.clock + 1)
  }

  /** ensure_page: a page of the ROM is touched, or loaded over the victim; no other page changes anything. */
  ghost function WithPage(c: Cached, p: nat, prefetch: bool): (d: Cached)
    requires c.pages != []
    ensures SameSetup(c, d)
  {
    if Hit(c, p) then AfterHit(c, p, prefetch)
    else if p < |c.table| then AfterLoad(c, p, Victim(c.pages), prefetch)
    else c
  }

  /** `count` pages from `first` on. */
  ghost function WithPages(c: Cached, first: nat, count: nat, prefetch: bool): (d: Cached)
    requires c.pages != []
    ensures SameSetup(c, d)
    decreases count
  {
    if count == 0 then c else WithPage(WithPages(c, first, count - 1, prefetch), first + count - 1, prefetch)
  }

  /** Whether one of `count` demand reads from page `first` on misses. */
  ghost predicate Misses(c: Cached, first: nat, count: nat)
    requires c.pages != []
  {
    count > 0 && (Misses(c, first, count - 1) || !Hit(WithPages(c, first, count - 1, false), first + count - 1))
  }

  /** How many pages maybe_prefetch_after_read asks for after a read that ends in page `current`. */
  function PagesAhead(c: Cached, current: nat, streaming: bool, missed: bool): nat {
    if (!streaming && !missed) || (!missed && current == c.base) then 0
    else if c.demand.run >= 4 then 2 else 1
  }

  ghost function AfterPrefetch(c: Cached, current: nat, streaming: bool, missed: bool): (d: Cached)
    requires c.pages != []
    ensures |d.pages| == |c.pages|
  {
    var ahead := PagesAhead(c, current, streaming, missed);
    if ahead == 0 then c else WithPages(c.(base := current), current + 1, ahead, true)
  }

  /** read_ptr, for an access that lies within a page. */
  ghost function AfterPtr(c: Cached, a: Access): (d: Cached)
    requires c.pages != [] && c.pageBytes > 0
    ensures |d.pages| == |c.pages|
  {
    var p := PageOf(a.address, c.pageBytes);
    AfterPrefetch(WithPage(c.(demand := Noted(c.demand, a)), p, false),
                  LastPage(a.address + a.bytes, c.pageBytes), Follows(c.demand, a), !Hit(c, p))
  }

  /** The page that the slot which read_ptr has pointed at holds once the prefetches are done. */
  ghost function PageShown(c: Cached, a: Access): nat
    requires c.pages != [] && c.pageBytes > 0
  {
    AfterPtr(c, a).pages[SlotFor(c, PageOf(a.address, c.pageBytes))].index
  }

  /** The number of pages that a read meets. */
  function PagesMet(a: Access, pageBytes: nat): (n: int)
    requires pageBytes > 0
  {
    LastPage(a.address + a.bytes, pageBytes) + 1 - PageOf(a.address, pageBytes)
  }

  /** read_bytes, for an access of at least a byte. */
  ghost function AfterBlock(c: Cached, a: Access): (d: Cached)
    requires c.pages != [] && c.pageBytes > 0
    ensures |d.pages| == |c.pages|
  {
    var p, n := PageOf(a.address, c.pageBytes), Max(PagesMet(a, c.pageBytes), 0);
    var noted := c.(demand := Noted(c.demand, a));
    AfterPrefetch(WithPages(noted, p, n, false), LastPage(a.address + a.bytes, c.pageBytes), Follows(c.demand, a), Misses(noted, p, n))
  }

  // ----- Requests -----

  datatype Request =
    | ByteAt(address: u32)
    | HalfAt(address: u32)
    | WordAt(address: u32)
    | Block(address: u32, bytes: nat)
    | Ahead(address: u32, bytes: nat)
    | NewFrame

  datatype Answer = Number(value: u32) | Bytes(data: seq<u8>) | NoAnswer

  /** What a reader of the flat ROM sees; all ones outside it. Prefetches and resets answer nothing. */
  function FlatAnswer(rom: seq<u8>, r: Request): Answer {
    match r
    case ByteAt(a) => Number(if a < |rom| then rom[a] else 0xFF)
    case HalfAt(a) => Number(if a + 2 <= |rom| then Half(rom[a], rom[a + 1]) else 0xFFFF)
    case WordAt(a) => Number(if a + 4 <= |rom| then Word(rom[a], rom[a + 1], rom[a + 2], rom[a + 3]) else 0xFFFF_FFFF)
    case Block(a, n) => if n == 0 then Bytes([]) else if a + n <= |rom| then Bytes(rom[a..a + n]) else NoAnswer
    case Ahead(_, _) => NoAnswer
    case NewFrame => NoAnswer
  }

  /** The access that a number request makes. */
  function AccessOf(r: Request): Access
    requires r.ByteAt? || r.HalfAt? || r.WordAt?
  {
    Access(r.address, if r.ByteAt? then 1 else if r.HalfAt? then 2 else 4)
  }

  /** A number request that read_ptr serves: inside the ROM and within one page. */
  predicate ByPointer(c: Cached, r: Request)
    requires c.pageBytes > 0
  {
    && (r.ByteAt? || r.HalfAt? || r.WordAt?)
    && r.address + AccessOf(r).bytes <= c.size
    && OffsetIn(r.address, c.pageBytes) + AccessOf(r).bytes <= c.pageBytes
  }

  /** A number that straddles two pages is read with read_bytes. */
  ghost function AfterNumber(c: Cached, r: Request): (d: Cached)
    requires c.pages != [] && c.pageBytes > 0 && (r.ByteAt? || r.HalfAt? || r.WordAt?)
    ensures |d.pages| == |c.pages| && d.pageBytes == c.pageBytes
  {
    if ByPointer(c, r) then AfterPtr(c, AccessOf(r))
    else if r.address + AccessOf(r).bytes <= c.size then AfterBlock(c, AccessOf(r))
    else c
  }

  ghost function After(c: Cached, r: Request): (d: Cached)
    requires c.pages != [] && c.pageBytes > 0
    ensures |d.pages| == |c.pages| && d.pageBytes == c.pageBytes
  {
    match r
    case Block(a, n) => if 0 < n && a + n <= c.size then AfterBlock(c, Access(a, n)) else c
    case Ahead(a, n) =>
      if 0 < n && a < c.size then
        WithPages(c, PageOf(a, c.pageBytes), Max(PagesMet(Access(a, Min(n, c.size - a)), c.pageBytes), 0), true)
      else c
    case NewFrame =>
      c.(pages := Unprefetched(c.pages), demand := NO_DEMAND, base := NO_PAGE)
    case _ => AfterNumber(c, r)
  }

  /** The little-endian number that one, two or four bytes spell. */
  function LittleEndian(b: seq<u8>): u32
    requires |b| == 1 || |b| == 2 || |b| == 4
  {
    if |b| == 1 then b[0] else if |b| == 2 then Half(b[0], b[1]) else Word(b[0], b[1], b[2], b[3])
  }

  /** `n` bytes of page `p` from offset `o` on. */
  function PageBytes(rom: seq<u8>, pageBytes: nat, p: nat, o: nat, n: nat): (b: seq<u8>)
    ensures |b| == n && forall i: nat :: i < n ==> b[i] == PageByte(rom, pageBytes, p, o + i)
  {
    seq<u8>(n, i requires 0 <= i < n => PageByte(rom, pageBytes, p, o + i))
  }

  /** What the reader gets: read_ptr's bytes are read after its prefetches, from whatever the slot then holds. */
  ghost function CacheAnswer(rom: seq<u8>, c: Cached, r: Request): Answer
    requires c.pages != [] && c.pageBytes > 0
  {
    if ByPointer(c, r) then
      Number(LittleEndian(PageBytes(rom, c.pageBytes, PageShown(c, AccessOf(r)), OffsetIn(r.address, c.pageBytes), AccessOf(r).bytes)))
    else FlatAnswer(rom, r)
  }

  ghost function AfterAll(c: Cached, requests: seq<Request>): (d: Cached)
    requires c.pages != [] && c.pageBytes > 0
    ensures |d.pages| == |c.pages| && d.pageBytes == c.pageBytes
    decreases |requests|
  {
    if requests == [] then c else After(AfterAll(c, requests[..|requests| - 1]), requests[|requests| - 1])
  }

  /** The answer to request i of a run. */
  ghost function AnswerAt(rom: seq<u8>, c: Cached, requests: seq<Request>, i: nat): Answer
    requires c.pages != [] && c.pageBytes > 0 && i < |requests|
  {
    CacheAnswer(rom, AfterAll(c, requests[..i]), requests[i])
  }
}
