/**
 The flash-mapping ROM provider (Esp32MmapRomProvider): windows mapped onto the partition, replaced in
 least-recently-used order. The order is kept in a priority queue that is cleaned lazily: every touch
 pushes an entry, and entries that are no longer current are dropped when they surface.
 */
module MmapWindows {
  import opened Basics
  import opened RomBytes
  import opened Recency

  datatype Window = Window(valid: bool, prefetched: bool, page: nat, age: nat, handle: nat)

  const NO_WINDOW := Window(false, false, 0xFFFF_FFFF, 0, 0)

  datatype WindowAge = WindowAge(age: nat, slot: nat)

  /** The queue entry that window `s` last pushed. */
  function Current(windows: seq<Window>, s: nat): WindowAge
    requires s < |windows|
  {
    WindowAge(windows[s].age, s)
  }

  /** The window table and the valid windows name each other. */
  ghost predicate TableExact(table: seq<int>, windows: seq<Window>) {
    && (forall p :: 0 <= p < |table| && table[p] != -1 ==>
          0 <= table[p] < |windows| && windows[table[p]].valid && windows[table[p]].page == p)
    && (forall s :: 0 <= s < |windows| && windows[s].valid ==> windows[s].page < |table| && table[windows[s].page] == s)
  }

  /** The current entry of every valid window is queued; entries carry distinct ages of the past. */
  ghost predicate QueueExact(lru: seq<WindowAge>, windows: seq<Window>, clock: nat) {
    && (forall s :: 0 <= s < |windows| && windows[s].valid ==> Current(windows, s) in lru)
    && (forall e :: e in lru ==> e.slot < |windows| && e.age <= clock)
    && (forall e, f :: e in lru && f in lru && e.age == f.age ==> e == f)
  }

  /** `recency` lists the valid windows, each once, from the least to the most recently touched. */
  ghost predicate RecencyExact(recency: seq<nat>, windows: seq<Window>, clock: nat) {
    && (forall s: nat :: s in recency <==> s < |windows| && windows[s].valid)
    && (forall i :: 0 <= i < |recency| ==> recency[i] < |windows| && windows[recency[i]].age <= clock)
    && (forall i, j :: 0 <= i < j < |recency| ==> windows[recency[i]].age < windows[recency[j]].age)
  }

  /** Free slots are invalid and listed once. */
  ghost predicate FreeExact(free: seq<nat>, windows: seq<Window>) {
    && (forall i :: 0 <= i < |free| ==> free[i] < |windows| && !windows[free[i]].valid)
    && (forall i, j :: 0 <= i < j < |free| ==> free[i] != free[j])
  }

  /** An invalid window that is not on the free list: a mapping into it failed. */
  predicate Lost(free: seq<nat>, windows: seq<Window>, s: nat) {
    s < |windows| && !windows[s].valid && s !in free
  }

  /** A stretch of the partition mapped into memory. */
  datatype Mapping = Mapping(base: nat, length: nat)

  function PageMapping(p: nat, size: nat, windowBytes: nat): Mapping {
    Mapping(PageStart(p, windowBytes), if PageStart(p, windowBytes) <= size then Min(windowBytes, size - PageStart(p, windowBytes)) else 0)
  }

  /** Outstanding mappings are exactly those of valid windows, each mapping its own page. */
  ghost predicate HandlesExact(maps: map<nat, Mapping>, windows: seq<Window>, size: nat, windowBytes: nat) {
    && (forall s :: 0 <= s < |windows| && windows[s].valid ==>
         windows[s].handle in maps && maps[windows[s].handle] == PageMapping(windows[s].page, size, windowBytes))
    && (forall s, t :: 0 <= s < t < |windows| && windows[s].valid && windows[t].valid ==> windows[s].handle != windows[t].handle)
    && (forall h :: h in maps ==> exists s :: 0 <= s < |windows| && windows[s].valid && windows[s].handle == h)
  }

  /** Taking a window out leaves the others in order of their ages. */
  lemma {:induction false} WithoutKeepsOrder(recency: seq<nat>, s: nat, ages: nat -> nat)
    requires forall i, j :: 0 <= i < j < |recency| ==> ages(recency[i]) < ages(recency[j])
    ensures forall i, j :: 0 <= i < j < |Without(recency, s)| ==> ages(Without(recency, s)[i]) < ages(Without(recency, s)[j])
  {
    if recency != [] {
      var n := |recency| - 1;
      WithoutKeepsOrder(recency[..n], s, ages);
      WithoutMembers(recency[..n], s);
      var rest := Without(recency[..n], s);
      forall x | x in rest
        ensures ages(x) < ages(recency[n])
      {
        var j :| 0 <= j < n && recency[..n][j] == x;
        assert recency[j] == x;
      }
    }
  }

  /** Touching a window moves it to the end of the recency list. */
  lemma TouchedLast(recency: seq<nat>, windows: seq<Window>, clock: nat, s: nat, w: Window)
    requires RecencyExact(recency, windows, clock) && s < |windows| && w.valid && w.age == clock + 1
    ensures RecencyExact(Without(recency, s) + [s], windows[s := w], clock + 1)
  {
    var r := Without(recency, s) + [s];
    var windows' := windows[s := w];
    WithoutMembers(recency, s);
    WithoutKeepsOrder(recency, s, (x: nat) => if x < |windows| then windows[x].age else 0);
    forall i | 0 <= i < |r|
      ensures r[i] < |windows| && windows'[r[i]].age <= clock + 1
      ensures i < |r| - 1 ==> r[i] != s && windows[r[i]].age <= clock
    {
      if i < |r| - 1 {
        assert r[i] == Without(recency, s)[i] && r[i] in recency;
        var k :| 0 <= k < |recency| && recency[k] == r[i];
      }
    }
  }

  /** Unmapping the least recently used window drops the head of the recency list. */
  lemma DroppedFirst(recency: seq<nat>, windows: seq<Window>, clock: nat)
    requires RecencyExact(recency, windows, clock) && recency != []
    ensures RecencyExact(recency[1..], windows[recency[0] := NO_WINDOW], clock)
  {
    var windows' := windows[recency[0] := NO_WINDOW];
    assert forall i :: 0 < i < |recency| ==> recency[i] != recency[0];
    forall s: nat
      ensures s in recency[1..] <==> s < |windows'| && windows'[s].valid
    {
      if s in recency && s != recency[0] {
        var i :| 0 <= i < |recency| && recency[i] == s;
        assert recency[1..][i - 1] == s;
      }
      if s in recency[1..] {
        var i :| 0 <= i < |recency[1..]| && recency[1..][i] == s;
        assert recency[i + 1] == s;
      }
    }
  }

  /** The oldest entry of the queue, if current, belongs to the least recently used window. */
  lemma OldestCurrentIsLeastRecent(lru: seq<WindowAge>, windows: seq<Window>, recency: seq<nat>, clock: nat, e: WindowAge)
    requires QueueExact(lru, windows, clock) && RecencyExact(recency, windows, clock)
    requires e in lru && (forall f :: f in lru ==> e.age <= f.age)
    requires windows[e.slot].valid && windows[e.slot].age == e.age
    ensures recency != [] && recency[0] == e.slot
  {
    assert e.slot in recency;
    var i :| 0 <= i < |recency| && recency[i] == e.slot;
    assert recency[0] in recency;
    assert Current(windows, recency[0]) in lru;
  }

  /** So while a window is valid, the entry that names the least recently used one is still to come. */
  lemma LeastRecentIsQueued(lru: seq<WindowAge>, windows: seq<Window>, recency: seq<nat>, clock: nat)
    requires QueueExact(lru, windows, clock) && RecencyExact(recency, windows, clock) && recency != []
    ensures recency[0] < |windows| && Current(windows, recency[0]) in lru
    ensures forall e :: e in lru && windows[e.slot].valid && windows[e.slot].age == e.age ==> windows[recency[0]].age <= e.age
  {
    assert recency[0] in recency;
    forall e | e in lru && windows[e.slot].valid && windows[e.slot].age == e.age
      ensures windows[recency[0]].age <= e.age
    {
      assert e.slot in recency;
      var i :| 0 <= i < |recency| && recency[i] == e.slot;
    }
  }

  /** `after` is `before` with (one copy of) entry `e` taken out. */
  ghost predicate TakenOut(before: seq<WindowAge>, after: seq<WindowAge>, e: WindowAge) {
    && e in before
    && (forall f :: f in after ==> f in before)
    && (forall f :: f in before && f != e ==> f in after)
  }

  lemma StaleEntryDropped(before: seq<WindowAge>, after: seq<WindowAge>, windows: seq<Window>, clock: nat, e: WindowAge)
    requires QueueExact(before, windows, clock) && TakenOut(before, after, e)
    requires !(windows[e.slot].valid && windows[e.slot].age == e.age)
    ensures QueueExact(after, windows, clock)
  {
    forall s | 0 <= s < |windows| && windows[s].valid
      ensures Current(windows, s) in after
    {
      assert Current(windows, s) in before;
    }
  }

  lemma VictimEntryTaken(before: seq<WindowAge>, after: seq<WindowAge>, windows: seq<Window>, clock: nat, e: WindowAge)
    requires QueueExact(before, windows, clock) && TakenOut(before, after, e)
    ensures QueueExact(after, windows[e.slot := NO_WINDOW], clock)
  {
    var windows' := windows[e.slot := NO_WINDOW];
    forall s | 0 <= s < |windows'| && windows'[s].valid
      ensures Current(windows', s) in after
    {
      assert Current(windows, s) in before;
    }
  }

  lemma FreeSlotTaken(free: seq<nat>, windows: seq<Window>)
    requires FreeExact(free, windows) && free != []
    ensures FreeExact(free[..|free| - 1], windows)
    ensures free[|free| - 1] < |windows| && !windows[free[|free| - 1]].valid
    ensures free[|free| - 1] !in free[..|free| - 1]
  {
  }

  /** Dropping a valid window and its table entry. */
  lemma DroppedFromTable(table: seq<int>, windows: seq<Window>, v: nat)
    requires TableExact(table, windows) && v < |windows| && windows[v].valid
    ensures TableExact(table[windows[v].page := -1], windows[v := NO_WINDOW])
  {
  }

  /** Filling an empty window with a page that has no entry. */
  lemma FilledInTable(table: seq<int>, windows: seq<Window>, v: nat, w: Window)
    requires TableExact(table, windows) && v < |windows| && !windows[v].valid
    requires w.valid && w.page < |table| && table[w.page] == -1
    ensures TableExact(table[w.page := v], windows[v := w])
  {
  }

  /** Touching a window keeps its table entry. */
  lemma TouchedInTable(table: seq<int>, windows: seq<Window>, s: nat, w: Window)
    requires TableExact(table, windows) && s < |windows| && windows[s].valid && w.valid && w.page == windows[s].page
    ensures TableExact(table, windows[s := w])
  {
  }

  /** A touched window's new entry joins the queue; its old one, if still there, has become stale. */
  lemma TouchedInQueue(lru: seq<WindowAge>, windows: seq<Window>, clock: nat, s: nat, w: Window)
    requires s < |windows| && QueueExact(lru, windows[s := NO_WINDOW], clock) && w.age == clock + 1
    ensures QueueExact(lru + [WindowAge(w.age, s)], windows[s := w], clock + 1)
  {
    var windows' := windows[s := w];
    forall t | 0 <= t < |windows'| && windows'[t].valid
      ensures Current(windows', t) in lru + [WindowAge(w.age, s)]
    {
      if t != s {
        assert Current(windows[s := NO_WINDOW], t) in lru;
      }
    }
  }

  lemma ForgottenInQueue(lru: seq<WindowAge>, windows: seq<Window>, clock: nat, s: nat)
    requires s < |windows| && QueueExact(lru, windows, clock)
    ensures QueueExact(lru, windows[s := NO_WINDOW], clock)
  {
    var windows' := windows[s := NO_WINDOW];
    forall t | 0 <= t < |windows'| && windows'[t].valid
      ensures Current(windows', t) in lru
    {
      assert Current(windows, t) in lru;
    }
  }

  lemma NoneRecentNoneValid(windows: seq<Window>, recency: seq<nat>, clock: nat)
    requires RecencyExact(recency, windows, clock)
    ensures recency == [] ==> forall s :: 0 <= s < |windows| ==> !windows[s].valid
  {
  }

  lemma MappingDropped(maps: map<nat, Mapping>, windows: seq<Window>, size: nat, windowBytes: nat, v: nat)
    requires HandlesExact(maps, windows, size, windowBytes) && v < |windows| && windows[v].valid
    ensures windows[v].handle in maps
    ensures HandlesExact(maps - {windows[v].handle}, windows[v := NO_WINDOW], size, windowBytes)
  {
    var windows' := windows[v := NO_WINDOW];
    forall h | h in maps - {windows[v].handle}
      ensures exists s :: 0 <= s < |windows'| && windows'[s].valid && windows'[s].handle == h
    {
      var s :| 0 <= s < |windows| && windows[s].valid && windows[s].handle == h;
      assert windows'[s].valid;
    }
  }

  lemma MappingAdded(maps: map<nat, Mapping>, windows: seq<Window>, size: nat, windowBytes: nat, v: nat, w: Window)
    requires HandlesExact(maps, windows, size, windowBytes) && v < |windows| && !windows[v].valid
    requires w.valid && w.handle !in maps
    ensures HandlesExact(maps[w.handle := PageMapping(w.page, size, windowBytes)], windows[v := w], size, windowBytes)
  {
    var windows' := windows[v := w];
    var maps' := maps[w.handle := PageMapping(w.page, size, windowBytes)];
    forall h | h in maps'
      ensures exists s :: 0 <= s < |windows'| && windows'[s].valid && windows'[s].handle == h
    {
      if h == w.handle {
        assert windows'[v].valid;
      } else {
        var s :| 0 <= s < |windows| && windows[s].valid && windows[s].handle == h;
        assert windows'[s].valid;
      }
    }
  }

  lemma MappingTouched(maps: map<nat, Mapping>, windows: seq<Window>, size: nat, windowBytes: nat, s: nat, w: Window)
    requires HandlesExact(maps, windows, size, windowBytes) && s < |windows| && windows[s].valid
    requires w.valid && w.handle == windows[s].handle && w.page == windows[s].page
    ensures HandlesExact(maps, windows[s := w], size, windowBytes)
  {
    var windows' := windows[s := w];
    forall h | h in maps
      ensures exists t :: 0 <= t < |windows'| && windows'[t].valid && windows'[t].handle == h
    {
      var t :| 0 <= t < |windows| && windows[t].valid && windows[t].handle == h;
      assert windows'[t].valid;
    }
  }

  lemma FreeListKept(free: seq<nat>, windows: seq<Window>, s: nat, w: Window)
    requires FreeExact(free, windows) && s < |windows| && (s !in free || !w.valid)
    ensures FreeExact(free, windows[s := w])
  {
    assert forall i :: 0 <= i < |free| ==> free[i] in free;
  }

  lemma QueueNamesWindows(lru: seq<WindowAge>, windows: seq<Window>, clock: nat, e: WindowAge)
    requires QueueExact(lru, windows, clock) && e in lru
    ensures e.slot < |windows|
  {
  }

  lemma ValidIsNotFree(free: seq<nat>, windows: seq<Window>, s: nat)
    requires FreeExact(free, windows) && s < |windows| && windows[s].valid
    ensures s !in free
  {
  }

  /** An empty window matters to the queue no more than a forgotten one. */
  lemma EmptyWindowInQueue(lru: seq<WindowAge>, windows: seq<Window>, clock: nat, v: nat)
    requires v < |windows| && !windows[v].valid && QueueExact(lru, windows[v := NO_WINDOW], clock)
    ensures QueueExact(lru, windows, clock)
  {
    forall t | 0 <= t < |windows| && windows[t].valid
      ensures Current(windows, t) in lru
    {
      assert Current(windows[v := NO_WINDOW], t) in lru;
    }
  }

  /** A call of ensure_window that misses and takes window `v`: what is lost after it. */
  ghost predicate LostExactly(free: seq<nat>, windows: seq<Window>, recency: seq<nat>, free': seq<nat>, windows': seq<Window>, v: nat, ok: bool) {
    forall s: nat :: Lost(free', windows', s) <==>
      (Lost(free, windows, s) && !(s == 0 && free == [] && recency == [] && ok)) || (!ok && s == v)
  }

  /**
   A lost window stays lost over a miss unless it is the first one, nothing is free or valid, and the
   mapping succeeds; a failed mapping loses the window it was for, and nothing else loses a window.
   */
  lemma MissLoses(free: seq<nat>, windows: seq<Window>, recency: seq<nat>, free': seq<nat>, windows': seq<Window>, clock: nat, v: nat, ok: bool)
    requires RecencyExact(recency, windows, clock) && FreeExact(free, windows)
    requires v == VictimOf(free, recency) < |windows| == |windows'|
    requires forall t :: 0 <= t < |windows| && t != v ==> windows'[t] == windows[t]
    requires free' == if free == [] then [] else free[..|free| - 1]
    requires windows'[v].valid == ok
    ensures LostExactly(free, windows, recency, free', windows', v, ok)
  {
    if free != [] {
      assert free == free' + [v];
      assert v !in free';
    } else if recency != [] {
      assert recency[0] in recency;
    }
  }

  /** A hit loses and recovers nothing. */
  lemma HitLosesNothing(free: seq<nat>, windows: seq<Window>, windows': seq<Window>, s: nat)
    requires s < |windows| == |windows'| && windows[s].valid && windows'[s].valid
    requires forall t :: 0 <= t < |windows| && t != s ==> windows'[t] == windows[t]
    ensures forall t: nat :: Lost(free, windows', t) <==> Lost(free, windows, t)
  {
  }

  /** With nothing free and nothing valid, every window is lost. */
  lemma NothingLeftIsLost(free: seq<nat>, windows: seq<Window>, recency: seq<nat>, clock: nat)
    requires RecencyExact(recency, windows, clock) && free == [] && recency == []
    ensures forall s: nat :: s < |windows| ==> Lost(free, windows, s)
  {
  }

  /** The window the next miss takes: the last free one, else the least recently touched, else the first. */
  function VictimOf(free: seq<nat>, recency: seq<nat>): nat {
    if free != [] then free[|free| - 1] else if recency != [] then recency[0] else 0
  }

  lemma FailedIsLost(free: seq<nat>, windows: seq<Window>, v: nat)
    requires v < |windows| && !windows[v].valid && v !in free
    ensures Lost(free, windows, v)
  {
  }
}
