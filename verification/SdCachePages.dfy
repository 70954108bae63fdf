/**
 The page slots of the SD-card ROM provider (platform/esp32s3/components/gba_core/esp32_rom_provider.cpp): a page cache with
 ages, pinning and prefetch over a file whose seeks and reads may fail.
 */
module SdCachePages {
  import opened Basics

  const PIN_THRESHOLD: nat := 96

  /** A cache slot; its data is the row of the cache buffer with the same number. */
  datatype Page = Page(valid: bool, prefetched: bool, pinned: bool, index: nat, age: nat, hotScore: nat)

  const EMPTY_PAGE := Page(false, false, false, 0xFFFF_FFFF, 0, 0)

  function MaxPinned(pageCount: nat): nat {
    Max(1, pageCount / 4)
  }

  function PinnedCount(pages: seq<Page>): nat {
    if pages == [] then 0 else PinnedCount(pages[..|pages| - 1]) + Bit(pages[|pages| - 1].pinned)
  }

  /** A demand hit: the page cools down never, warms up by one, and is pinned when hot if pins are left. */
  function Heated(page: Page, pinnedPages: nat, maxPinned: nat): Page {
    var warm := page.(hotScore := if page.hotScore < PIN_THRESHOLD then page.hotScore + 1 else page.hotScore);
    warm.(pinned := page.pinned || (warm.hotScore >= PIN_THRESHOLD && pinnedPages < maxPinned))
  }

  /** The slot record after a hit at time `now`. */
  function Touched(page: Page, prefetch: bool, now: nat, pinnedPages: nat, maxPinned: nat): Page {
    (if prefetch then page else Heated(page.(prefetched := false), pinnedPages, maxPinned)).(age := now)
  }

  /** The slot record after a load at time `now`. */
  function Loaded(index: nat, prefetch: bool, now: nat): Page {
    Page(true, prefetch, false, index, now, if prefetch then 0 else 1)
  }

  ghost predicate AllValid(pages: seq<Page>) {
    forall s :: 0 <= s < |pages| ==> pages[s].valid
  }

  ghost predicate AllPinned(pages: seq<Page>) {
    forall s :: 0 <= s < |pages| ==> pages[s].pinned
  }

  /**
   The slot to replace: the first empty one; else a least recently used unpinned one; else, with every
   slot pinned, a least recently used one.
   */
  ghost predicate IsVictim(pages: seq<Page>, v: nat) {
    && v < |pages|
    && (if !AllValid(pages) then !pages[v].valid && AllValid(pages[..v])
        else if !AllPinned(pages) then
          !pages[v].pinned && forall s :: 0 <= s < |pages| && !pages[s].pinned ==> pages[v].age <= pages[s].age
        else forall s :: 0 <= s < |pages| ==> pages[v].age <= pages[s].age)
  }

  predicate Candidate(pages: seq<Page>, s: nat, anyPin: bool) {
    s < |pages| && (anyPin || !pages[s].pinned)
  }

  /** A least recently used candidate among the first n slots. */
  lemma {:induction false} LeastRecentExists(pages: seq<Page>, n: nat, anyPin: bool) returns (v: nat)
    requires n <= |pages| && exists s: nat :: s < n && Candidate(pages, s, anyPin)
    ensures v < n && Candidate(pages, v, anyPin)
    ensures forall s: nat :: s < n && Candidate(pages, s, anyPin) ==> pages[v].age <= pages[s].age
  {
    v := n - 1;
    if exists s: nat :: s < n - 1 && Candidate(pages, s, anyPin) {
      var w := LeastRecentExists(pages, n - 1, anyPin);
      if !Candidate(pages, v, anyPin) || pages[w].age <= pages[v].age {
        v := w;
      }
    }
  }

  lemma {:induction false} FirstEmptyExists(pages: seq<Page>) returns (v: nat)
    requires !AllValid(pages)
    ensures v < |pages| && !pages[v].valid && AllValid(pages[..v])
  {
    var n := |pages| - 1;
    if AllValid(pages[..n]) {
      v := n;
    } else {
      v := FirstEmptyExists(pages[..n]);
      assert pages[..n][..v] == pages[..v];
    }
  }

  lemma VictimExists(pages: seq<Page>) returns (v: nat)
    requires pages != []
    ensures IsVictim(pages, v)
  {
    if !AllValid(pages) {
      v := FirstEmptyExists(pages);
    } else {
      assert AllPinned(pages) ==> Candidate(pages, 0, true);
      assert forall s: nat :: s < |pages| && !pages[s].pinned ==> Candidate(pages, s, false);
      v := LeastRecentExists(pages, |pages|, AllPinned(pages));
      assert AllPinned(pages) ==> forall s: nat :: s < |pages| ==> Candidate(pages, s, true);
    }
  }

  ghost function Victim(pages: seq<Page>): (v: nat)
    requires pages != []
    ensures IsVictim(pages, v)
  {
    assert exists v: nat :: IsVictim(pages, v) by {
      var v := VictimExists(pages);
    }
    var v: nat :| IsVictim(pages, v); v
  }

  /** Ages tell valid slots apart, so there is one victim. */
  lemma VictimIsUnique(pages: seq<Page>, clock: nat, v: nat)
    requires PagesExact(pages, clock) && IsVictim(pages, v)
    ensures v == Victim(pages)
  {
    var w := Victim(pages);
    if !AllValid(pages) {
      assert forall t :: 0 <= t < w ==> pages[t] == pages[..w][t];
      assert forall t :: 0 <= t < v ==> pages[t] == pages[..v][t];
    } else {
      assert pages[v].age == pages[w].age;
      assert pages[v].valid && pages[w].valid;
    }
  }

  /** Every page table entry names a valid slot that holds that page; so no two entries share a slot. */
  ghost predicate TableExact(table: seq<int>, pages: seq<Page>) {
    forall p :: 0 <= p < |table| ==>
      -1 <= table[p] < |pages| && (table[p] >= 0 ==> pages[table[p]].valid && pages[table[p]].index == p)
  }

  /** Ages never lie in the future, no two valid slots were touched at once, and only valid slots are pinned. */
  ghost predicate PagesExact(pages: seq<Page>, clock: nat) {
    && (forall s :: 0 <= s < |pages| ==> pages[s].age <= clock && (pages[s].pinned ==> pages[s].valid))
    && (forall s, t :: 0 <= s < t < |pages| && pages[s].valid && pages[t].valid ==> pages[s].age != pages[t].age)
  }

  /** Other valid slots touched no earlier than slot `keep`. */
  ghost function NewerThan(pages: seq<Page>, keep: nat): set<nat>
    requires keep < |pages|
  {
    set s: nat | s < |pages| && s != keep && pages[s].valid && pages[s].age >= pages[keep].age
  }

  ghost function Unpinned(pages: seq<Page>): set<nat> {
    set s: nat | s < |pages| && !pages[s].pinned
  }

  lemma {:induction false} PinnedCountAt(pages: seq<Page>, s: nat, page: Page)
    requires s < |pages|
    ensures PinnedCount(pages[s := page]) + Bit(pages[s].pinned) == PinnedCount(pages) + Bit(page.pinned)
  {
    var n := |pages| - 1;
    if s == n {
      assert pages[s := page][..n] == pages[..n];
    } else {
      assert pages[s := page][..n] == pages[..n][s := page];
      PinnedCountAt(pages[..n], s, page);
    }
  }

  lemma UnpinnedOfPrefix(pages: seq<Page>, n: nat)
    requires n + 1 == |pages|
    ensures |Unpinned(pages)| == |Unpinned(pages[..n])| + Bit(!pages[n].pinned)
  {
    var before := Unpinned(pages[..n]);
    forall s: nat
      ensures s in Unpinned(pages) <==> s in (if pages[n].pinned then before else before + {n})
    {
    }
    assert Unpinned(pages) == if pages[n].pinned then before else before + {n};
    assert n !in before;
  }

  lemma {:induction false} UnpinnedCount(pages: seq<Page>)
    ensures |Unpinned(pages)| == |pages| - PinnedCount(pages)
  {
    if pages != [] {
      var n := |pages| - 1;
      UnpinnedCount(pages[..n]);
      UnpinnedOfPrefix(pages, n);
    } else {
      assert Unpinned(pages) == {};
    }
  }

  /** With four slots or more, a slot with at most one newer neighbour is never the one replaced. */
  lemma RecentSlotIsNoVictim(pages: seq<Page>, keep: nat, v: nat)
    requires |pages| >= 4 && keep < |pages| && pages[keep].valid
    requires PinnedCount(pages) <= MaxPinned(|pages|) && IsVictim(pages, v)
    requires |NewerThan(pages, keep)| <= 1
    ensures v != keep
  {
    UnpinnedCount(pages);
    if v == keep {
      assert AllValid(pages);
      if !AllPinned(pages) {
        assert Unpinned(pages) <= NewerThan(pages, keep) + {keep};
        SubsetSize(Unpinned(pages), NewerThan(pages, keep) + {keep});
      }
    }
  }

  lemma {:induction false} SubsetSize<T>(a: set<T>, b: set<T>)
    requires a <= b
    ensures |a| <= |b|
    decreases a
  {
    if a != {} {
      var x :| x in a;
      SubsetSize(a - {x}, b - {x});
    }
  }

  /** Touching or loading one other slot adds at most that slot to those newer than `keep`. */
  lemma NewerAfterUpdate(pages: seq<Page>, keep: nat, s: nat, page: Page)
    requires keep < |pages| && s < |pages|
    requires s == keep ==> page.age >= pages[keep].age
    ensures |NewerThan(pages[s := page], keep)| <= |NewerThan(pages, keep)| + 1
    ensures s == keep ==> |NewerThan(pages[s := page], keep)| <= |NewerThan(pages, keep)|
  {
    var after := NewerThan(pages[s := page], keep);
    if s == keep {
      SubsetSize(after, NewerThan(pages, keep));
    } else {
      SubsetSize(after, NewerThan(pages, keep) + {s});
    }
  }

  /** Replacing a slot record by one touched just now keeps the slots exact. */
  lemma TouchKeepsPagesExact(pages: seq<Page>, clock: nat, s: nat, page: Page)
    requires s < |pages| && PagesExact(pages, clock) && page.age == clock + 1 && page.valid
    ensures PagesExact(pages[s := page], clock + 1)
  {
  }

  /** A record that keeps its page keeps the table exact; so does one no entry refers to. */
  lemma TouchKeepsTableExact(table: seq<int>, pages: seq<Page>, s: nat, page: Page)
    requires s < |pages| && TableExact(table, pages)
    requires (page.valid && pages[s].valid && page.index == pages[s].index) || s !in table
    ensures TableExact(table, pages[s := page])
  {
  }

  lemma LinkKeepsTableExact(table: seq<int>, pages: seq<Page>, v: nat, p: nat)
    requires v < |pages| && p < |table| && TableExact(table, pages) && pages[v].valid && pages[v].index == p
    ensures TableExact(table[p := v], pages)
  {
  }

  lemma NothingNewerThanTheLatest(pages: seq<Page>, clock: nat, keep: nat)
    requires PagesExact(pages, clock) && keep < |pages| && pages[keep].valid && pages[keep].age == clock
    ensures NewerThan(pages, keep) == {}
  {
  }

  lemma RecentSlotIsNeverReplaced(pages: seq<Page>, keep: nat)
    requires |pages| >= 4 && keep < |pages| && pages[keep].valid
    requires PinnedCount(pages) <= MaxPinned(|pages|) && |NewerThan(pages, keep)| <= 1
    ensures !IsVictim(pages, keep)
  {
    if IsVictim(pages, keep) {
      RecentSlotIsNoVictim(pages, keep, keep);
    }
  }

  lemma {:induction false} SamePins(a: seq<Page>, b: seq<Page>)
    requires |a| == |b| && forall s :: 0 <= s < |a| ==> a[s].pinned == b[s].pinned
    ensures PinnedCount(a) == PinnedCount(b)
  {
    if a != [] {
      SamePins(a[..|a| - 1], b[..|b| - 1]);
    }
  }

  lemma PinnedMeansValid(pages: seq<Page>, clock: nat, v: nat)
    requires v < |pages| && pages[v].pinned && PagesExact(pages, clock)
    ensures pages[v].valid
  {
  }

  lemma PinnedMeansCounted(pages: seq<Page>, v: nat)
    requires v < |pages| && pages[v].pinned
    ensures PinnedCount(pages) > 0
  {
    PinnedCountAt(pages, v, pages[v].(pinned := false));
  }

  lemma {:induction false} NothingPinned(pages: seq<Page>)
    requires forall s :: 0 <= s < |pages| ==> !pages[s].pinned
    ensures PinnedCount(pages) == 0
  {
    if pages != [] {
      NothingPinned(pages[..|pages| - 1]);
    }
  }
}
