/** Recency order: what "the last C distinct pages of a trace" means. Lists end with the most recent page. */
module Recency {
  /** Take every `x` out of a list. */
  function Without(s: seq<nat>, x: nat): seq<nat> {
    if s == [] then []
    else
      var init, last := s[..|s| - 1], s[|s| - 1];
      if last == x then Without(init, x) else Without(init, x) + [last]
  }

  /** The distinct pages of a trace, from the least to the most recently touched. */
  function Order(trace: seq<nat>): seq<nat> {
    if trace == [] then []
    else
      var last := trace[|trace| - 1];
      Without(Order(trace[..|trace| - 1]), last) + [last]
  }

  /** The last (at most) `n` elements. */
  function Suffix(s: seq<nat>, n: nat): (r: seq<nat>)
    ensures |r| == if n <= |s| then n else |s|
  {
    if n == 0 || s == [] then [] else Suffix(s[..|s| - 1], n - 1) + [s[|s| - 1]]
  }

  /** The pages touched since `x` was touched last. */
  function TouchedSince(trace: seq<nat>, x: nat): set<nat> {
    if trace == [] || trace[|trace| - 1] == x then {}
    else TouchedSince(trace[..|trace| - 1], x) + {trace[|trace| - 1]}
  }

  /** What follows the last `x` of a list. */
  function After(s: seq<nat>, x: nat): seq<nat> {
    if s == [] || s[|s| - 1] == x then [] else After(s[..|s| - 1], x) + [s[|s| - 1]]
  }

  ghost predicate Distinct(s: seq<nat>) {
    s == [] || (s[|s| - 1] !in s[..|s| - 1] && Distinct(s[..|s| - 1]))
  }

  lemma Snoc(s: seq<nat>, x: nat)
    ensures (s + [x])[..|s + [x]| - 1] == s && (s + [x])[|s + [x]| - 1] == x
  {
  }

  lemma {:induction false} WithoutMembers(s: seq<nat>, x: nat)
    ensures forall y :: y in Without(s, x) <==> y in s && y != x
    ensures x !in s ==> Without(s, x) == s
  {
    if s != [] {
      var init, last := s[..|s| - 1], s[|s| - 1];
      assert s == init + [last];
      WithoutMembers(init, x);
    }
  }

  lemma {:induction false} WithoutKeeps(s: seq<nat>, x: nat)
    requires Distinct(s)
    ensures Distinct(Without(s, x)) && |Without(s, x)| == |s| - (if x in s then 1 else 0)
    ensures x !in s ==> Without(s, x) == s
  {
    WithoutMembers(s, x);
    if s != [] {
      var init, last := s[..|s| - 1], s[|s| - 1];
      assert s == init + [last];
      WithoutKeeps(init, x);
      WithoutMembers(init, x);
      Snoc(Without(init, x), last);
    }
  }

  lemma {:induction false} SuffixMembers(s: seq<nat>, n: nat, y: nat)
    requires y in Suffix(s, n)
    ensures y in s
  {
    if y != s[|s| - 1] {
      SuffixMembers(s[..|s| - 1], n - 1, y);
    }
  }

  lemma {:induction false} AfterMembers(s: seq<nat>, x: nat, y: nat)
    requires y in After(s, x)
    ensures y in s
  {
    if y != s[|s| - 1] {
      AfterMembers(s[..|s| - 1], x, y);
    }
  }

  /** The recency list has no repetitions, and holds exactly the pages of the trace. */
  lemma {:induction false} OrderIsDistinct(trace: seq<nat>)
    ensures Distinct(Order(trace))
    ensures forall x :: x in Order(trace) <==> x in trace
  {
    if trace != [] {
      var init, last := trace[..|trace| - 1], trace[|trace| - 1];
      assert trace == init + [last];
      OrderIsDistinct(init);
      WithoutKeeps(Order(init), last);
      WithoutMembers(Order(init), last);
      Snoc(Without(Order(init), last), last);
    }
  }

  lemma {:induction false} AfterWithout(s: seq<nat>, x: nat, y: nat)
    requires x != y
    ensures After(Without(s, y), x) == Without(After(s, x), y)
  {
    if s != [] {
      var init, last := s[..|s| - 1], s[|s| - 1];
      AfterWithout(init, x, y);
      Snoc(Without(init, y), last);
      Snoc(After(init, x), last);
    }
  }

  lemma {:induction false} AfterIsDistinct(s: seq<nat>, x: nat)
    requires Distinct(s)
    ensures Distinct(After(s, x))
  {
    if s != [] && s[|s| - 1] != x {
      AfterIsDistinct(s[..|s| - 1], x);
      if s[|s| - 1] in After(s[..|s| - 1], x) {
        AfterMembers(s[..|s| - 1], x, s[|s| - 1]);
      }
      Snoc(After(s[..|s| - 1], x), s[|s| - 1]);
    }
  }

  /** The order is that of the last touches: after x in it come exactly the pages touched since x was. */
  lemma {:induction false} AfterMeansTouchedSince(trace: seq<nat>, x: nat)
    requires x in trace
    ensures forall y :: y in After(Order(trace), x) <==> y in TouchedSince(trace, x)
    ensures |After(Order(trace), x)| == |TouchedSince(trace, x)|
  {
    var init, last := trace[..|trace| - 1], trace[|trace| - 1];
    assert trace == init + [last];
    var kept := Without(Order(init), last);
    Snoc(kept, last);
    if last != x {
      AfterMeansTouchedSince(init, x);
      OneMoreTouched(init, x, last);
    }
  }

  lemma OneMoreTouched(init: seq<nat>, x: nat, last: nat)
    requires x != last && |After(Order(init), x)| == |TouchedSince(init, x)|
    requires forall y :: y in After(Order(init), x) <==> y in TouchedSince(init, x)
    ensures var a := After(Without(Order(init), last), x) + [last];
      var t := TouchedSince(init, x) + {last};
      |a| == |t| && forall y :: y in a <==> y in t
  {
    AfterWithout(Order(init), x, last);
    OrderIsDistinct(init);
    AfterIsDistinct(Order(init), x);
    SameMembersOneMore(After(Order(init), x), TouchedSince(init, x), last);
  }

  lemma SameMembersOneMore(a: seq<nat>, t: set<nat>, last: nat)
    requires Distinct(a) && |a| == |t| && forall y :: y in a <==> y in t
    ensures |Without(a, last) + [last]| == |t + {last}|
    ensures forall y :: y in Without(a, last) + [last] <==> y in t + {last}
  {
    WithoutKeeps(a, last);
    WithoutMembers(a, last);
    hide Without, Distinct;
    if last in t {
      assert t + {last} == t;
    }
  }

  lemma {:induction false} InSuffixIffFewAfter(s: seq<nat>, x: nat, n: nat)
    requires x in s
    ensures x in Suffix(s, n) <==> |After(s, x)| < n
  {
    var init, last := s[..|s| - 1], s[|s| - 1];
    assert s == init + [last];
    if last != x && n > 0 {
      InSuffixIffFewAfter(init, x, n - 1);
    }
  }

  /** A page is among the last C distinct ones iff fewer than C others were touched since. */
  lemma AmongLastIffFewTouchedSince(trace: seq<nat>, x: nat, capacity: nat)
    requires x in trace
    ensures x in Suffix(Order(trace), capacity) <==> |TouchedSince(trace, x)| < capacity
  {
    OrderIsDistinct(trace);
    AfterMeansTouchedSince(trace, x);
    InSuffixIffFewAfter(Order(trace), x, capacity);
  }

  /** What is left of the last n elements when `x` goes: n - 1 elements, or n of which x was one. */
  ghost predicate LosesFromSuffix(r: seq<nat>, x: nat, n: nat)
    requires n > 0
  {
    Suffix(Without(r, x), n - 1) == if x in Suffix(r, n) then Without(Suffix(r, n), x) else Suffix(r, n - 1)
  }

  lemma SuffixWithoutLast(init: seq<nat>, x: nat, n: nat)
    requires x !in init && n > 0
    ensures LosesFromSuffix(init + [x], x, n)
  {
    var r := init + [x];
    Snoc(init, x);
    assert r[..|r| - 1] == init && r[|r| - 1] == x;
    WithoutMembers(init, x);
    var kept := Suffix(init, n - 1);
    assert Suffix(r, n) == kept + [x] && Without(r, x) == init;
    if x in kept {
      SuffixMembers(init, n - 1, x);
    }
    WithoutMembers(kept, x);
    hide Suffix;
    Snoc(kept, x);
  }

  /** One more element at the end, other than the one taken out. */
  lemma OneMoreKept(s: seq<nat>, x: nat, last: nat, n: nat)
    requires x != last && n > 0
    ensures Without(s + [last], x) == Without(s, x) + [last]
    ensures Suffix(s + [last], n) == Suffix(s, n - 1) + [last]
  {
    Snoc(s, last);
  }

  lemma SuffixWithoutEarlier(init: seq<nat>, x: nat, last: nat, n: nat)
    requires x != last && n > 0 && (n > 1 ==> LosesFromSuffix(init, x, n - 1))
    ensures LosesFromSuffix(init + [last], x, n)
  {
    var kept, w := Suffix(init, n - 1), Without(init, x);
    OneMoreKept(init, x, last, n);
    OneMoreKept(kept, x, last, n);
    if n > 1 {
      OneMoreKept(w, x, last, n - 1);
      OneMoreKept(init, x, last, n - 1);
      hide Suffix, Without;
    }
  }

  lemma {:induction false} SuffixWithout(r: seq<nat>, x: nat, n: nat)
    requires Distinct(r) && n > 0
    ensures LosesFromSuffix(r, x, n)
  {
    if r != [] {
      var init, last := r[..|r| - 1], r[|r| - 1];
      assert r == init + [last];
      if last == x {
        SuffixWithoutLast(init, x, n);
      } else {
        if n > 1 {
          SuffixWithout(init, x, n - 1);
        }
        SuffixWithoutEarlier(init, x, last, n);
      }
    }
  }

  lemma {:induction false} SuffixDropsFirst(s: seq<nat>, n: nat)
    requires n > 0
    ensures Suffix(s, n - 1) == if |s| >= n then Suffix(s, n)[1..] else Suffix(s, n)
  {
    if s != [] {
      var init, last := s[..|s| - 1], s[|s| - 1];
      if n > 1 {
        SuffixDropsFirst(init, n - 1);
      }
    }
  }

  /**
   One touch of a cache of `capacity` pages: a page it holds moves to the end; another is appended and, when
   the cache overflows, the first page drops out.
   */
  function TouchCache(held: seq<nat>, page: nat, capacity: nat): seq<nat> {
    if page in held then Without(held, page) + [page]
    else if |held| + 1 > capacity then (held + [page])[1..]
    else held + [page]
  }

  /** A cache that holds the last distinct pages of a trace goes on holding them. */
  lemma CacheStep(trace: seq<nat>, page: nat, capacity: nat)
    requires capacity > 0
    ensures Suffix(Order(trace + [page]), capacity) == TouchCache(Suffix(Order(trace), capacity), page, capacity)
  {
    var r := Order(trace);
    OrderIsDistinct(trace);
    Snoc(trace, page);
    assert Order(trace + [page]) == Without(r, page) + [page];
    hide Order;
    TouchKeepsLast(r, page, capacity);
  }

  lemma TouchKeepsLast(r: seq<nat>, page: nat, capacity: nat)
    requires Distinct(r) && capacity > 0
    ensures Suffix(Without(r, page) + [page], capacity) == TouchCache(Suffix(r, capacity), page, capacity)
  {
    var w := Without(r, page);
    Snoc(w, page);
    assert Suffix(w + [page], capacity) == Suffix(w, capacity - 1) + [page];
    SuffixWithout(r, page, capacity);
    SuffixDropsFirst(r, capacity);
    var held := Suffix(r, capacity);
    hide Suffix, Without, Distinct;
    if page !in held && |held| + 1 > capacity {
      assert (held + [page])[1..] == held[1..] + [page];
    }
  }

  // ----- Hits and misses -----

  /** A touch of `page` after `trace` hits: it is among the last `capacity` distinct pages. */
  ghost predicate Hits(trace: seq<nat>, page: nat, capacity: nat) {
    page in trace && |TouchedSince(trace, page)| < capacity
  }

  /** How many touches of a trace, from number `start` on, miss. */
  ghost function Misses(trace: seq<nat>, start: nat, capacity: nat): nat {
    if |trace| <= start then 0
    else
      var init, last := trace[..|trace| - 1], trace[|trace| - 1];
      Misses(init, start, capacity) + if Hits(init, last, capacity) then 0 else 1
  }

  lemma OneTouchMore(trace: seq<nat>, page: nat, start: nat, capacity: nat)
    requires start <= |trace|
    ensures Misses(trace + [page], start, capacity) == Misses(trace, start, capacity) + if Hits(trace, page, capacity) then 0 else 1
  {
    Snoc(trace, page);
    hide Hits;
  }

  lemma {:induction false} SuffixOfSuffix(r: seq<nat>, small: nat, large: nat)
    requires small <= large
    ensures Suffix(r, small) == Suffix(Suffix(r, large), small)
  {
    if r != [] && small > 0 {
      SuffixOfSuffix(r[..|r| - 1], small - 1, large - 1);
      Snoc(Suffix(r[..|r| - 1], large - 1), r[|r| - 1]);
    }
  }

  /**
   On one trace a smaller cache holds the most recent part of what a larger one holds, so it never hits
   where the larger one misses: more capacity never costs misses.
   */
  lemma {:induction false} LargerCacheMissesNoMore(trace: seq<nat>, start: nat, small: nat, large: nat)
    requires small <= large
    ensures Suffix(Order(trace), small) == Suffix(Suffix(Order(trace), large), small)
    ensures Misses(trace, start, large) <= Misses(trace, start, small)
  {
    SuffixOfSuffix(Order(trace), small, large);
    if |trace| > start {
      LargerCacheMissesNoMore(trace[..|trace| - 1], start, small, large);
    }
  }
}
