/** What the timers count: how many overflows n ticks make, where they fall, and cascades as long counters. */
module TimerLaws {
  import opened Basics
  import opened Timers
  import opened TimerReference

  // ---- ticks ----------------------------------------------------------------------------------

  /** `n` ticks of timer `i`. */
  function TickTimes(chs: seq<Clocked>, i: nat, n: nat, now: nat): (out: ClockedStep)
    requires |chs| == 4 && i < 4
    ensures |out.channels| == 4
    decreases n
  {
    if n == 0 then ClockedStep(chs, [])
    else
      var a := TickTimes(chs, i, n - 1, now);
      var b := Tick(a.channels, i, now);
      ClockedStep(b.channels, a.log + b.log)
  }

  /** How often timer `i` is reported. */
  function Reports(log: seq<Overflowed>, i: nat): nat {
    if log == [] then 0 else Reports(log[..|log| - 1], i) + if log[|log| - 1].timer == i then 1 else 0
  }

  lemma {:induction false} ReportsAdd(a: seq<Overflowed>, b: seq<Overflowed>, i: nat)
    ensures Reports(a + b, i) == Reports(a, i) + Reports(b, i)
  {
    if b == [] {
      assert a + b == a;
    } else {
      assert (a + b)[..|a + b| - 1] == a + b[..|b| - 1];
      ReportsAdd(a, b[..|b| - 1], i);
    }
  }

  lemma {:induction false} ReportsAbove(log: seq<Overflowed>, i: nat)
    requires forall e :: e in log ==> e.timer > i
    ensures Reports(log, i) == 0
  {
    if log != [] {
      assert forall e :: e in log[..|log| - 1] ==> e in log;
      ReportsAbove(log[..|log| - 1], i);
      assert log[|log| - 1] in log;
    }
  }

  /** A tick of timer `i` reports timers from `i` up, and depends on nothing below it. */
  lemma {:induction false} TickStaysAbove(chs: seq<Clocked>, i: nat, now: nat)
    requires |chs| == 4 && i < 4
    ensures forall e :: e in Tick(chs, i, now).log ==> e.timer >= i
    decreases 4 - i
  {
    if chs[i].counter == 0xFFFF {
      var r := chs[i := chs[i].(counter := chs[i].reload)];
      if i + 1 < 4 && r[i + 1].CountsOverflows() {
        TickStaysAbove(r, i + 1, now);
      }
    }
  }

  lemma {:induction false} TickReadsSuffix(a: seq<Clocked>, b: seq<Clocked>, i: nat, now: nat)
    requires |a| == 4 && |b| == 4 && i < 4 && a[i..] == b[i..]
    ensures Tick(a, i, now).channels[i..] == Tick(b, i, now).channels[i..]
    decreases 4 - i
  {
    assert a[i] == a[i..][0] == b[i..][0] == b[i];
    if a[i].counter != 0xFFFF {
      var x := a[i].(counter := a[i].counter + 1);
      assert a[i := x][i..] == a[i..][0 := x];
      assert b[i := x][i..] == b[i..][0 := x];
    } else {
      var x := a[i].(counter := a[i].reload);
      var a', b' := a[i := x], b[i := x];
      assert a'[i + 1..] == a[i..][1..] == b[i..][1..] == b'[i + 1..];
      var na, nb := TickNext(a', i, now).channels, TickNext(b', i, now).channels;
      if i + 1 < 4 {
        assert a'[i + 1] == a'[i + 1..][0] == b'[i + 1];
        if a'[i + 1].CountsOverflows() {
          TickReadsSuffix(a', b', i + 1, now);
          TickFrame(a', i + 1, now);
          TickFrame(b', i + 1, now);
          assert na[i] == na[..i + 1][i] == a'[i];
          assert nb[i] == nb[..i + 1][i] == b'[i];
        }
      }
      assert na[i..] == [na[i]] + na[i + 1..];
      assert nb[i..] == [nb[i]] + nb[i + 1..];
    }
  }

  /** What `m` overflows of timer `i` do to the timers above it. */
  function CascadeTimes(chs: seq<Clocked>, i: nat, m: nat, now: nat): (out: seq<Clocked>)
    requires |chs| == 4 && i < 4
    ensures |out| == 4
  {
    if i + 1 < 4 && chs[i + 1].CountsOverflows() then TickTimes(chs, i + 1, m, now).channels else chs
  }

  lemma {:induction false} TickKeepsSetup(chs: seq<Clocked>, i: nat, now: nat)
    requires |chs| == 4 && i < 4
    ensures forall j :: 0 <= j < 4 ==>
      Tick(chs, i, now).channels[j] == chs[j].(counter := Tick(chs, i, now).channels[j].counter)
    decreases 4 - i
  {
    if chs[i].counter == 0xFFFF {
      var r := chs[i := chs[i].(counter := chs[i].reload)];
      if i + 1 < 4 && r[i + 1].CountsOverflows() {
        TickKeepsSetup(r, i + 1, now);
      }
    }
  }

  lemma {:induction false} TickTimesKeepsSetup(chs: seq<Clocked>, i: nat, n: nat, now: nat)
    requires |chs| == 4 && i < 4
    ensures forall j :: 0 <= j < 4 ==>
      TickTimes(chs, i, n, now).channels[j] == chs[j].(counter := TickTimes(chs, i, n, now).channels[j].counter)
    decreases n
  {
    if n > 0 {
      TickTimesKeepsSetup(chs, i, n - 1, now);
      TickKeepsSetup(TickTimes(chs, i, n - 1, now).channels, i, now);
    }
  }

  /** One tick: what it does to timer `i`, to the log, and to the timers above. */
  lemma TickOnce(chs: seq<Clocked>, i: nat, now: nat)
    requires |chs| == 4 && i < 4
    ensures var out := Tick(chs, i, now);
      var wraps := chs[i].counter == 0xFFFF;
      && out.channels[i] == chs[i].(counter := if wraps then chs[i].reload else chs[i].counter + 1)
      && Reports(out.log, i) == (if wraps then 1 else 0)
      && out.channels[i + 1..] == CascadeTimes(chs, i, if wraps then 1 else 0, now)[i + 1..]
  {
    var out := Tick(chs, i, now);
    if chs[i].counter == 0xFFFF {
      var r := chs[i := chs[i].(counter := chs[i].reload)];
      var rest := TickNext(r, i, now);
      assert rest.channels[i] == r[i] && Reports(rest.log, i) == 0 by {
        if i + 1 < 4 && r[i + 1].CountsOverflows() {
          TickFrame(r, i + 1, now);
          assert rest.channels[i] == rest.channels[..i + 1][i];
          TickStaysAbove(r, i + 1, now);
          ReportsAbove(rest.log, i);
        }
      }
      var first := [Overflowed(i, now, chs[i].control.irq)];
      assert first[..0] == [];
      ReportsAdd(first, rest.log, i);
      assert r[i + 1..] == chs[i + 1..];
      if i + 1 < 4 && chs[i + 1].CountsOverflows() {
        TickReadsSuffix(r, chs, i + 1, now);
        assert TickTimes(chs, i + 1, 1, now).channels == Tick(TickTimes(chs, i + 1, 0, now).channels, i + 1, now).channels;
      }
    }
  }

  /** How often a counter at `c` with reload value `R` wraps in `n` ticks, and where it then stands. */
  function Wraps(c: u16, R: u16, n: nat): nat {
    if c + n < 0x10000 then 0 else (c + n - 0x10000) / (0x10000 - R) + 1
  }

  function CountAfter(c: u16, R: u16, n: nat): nat {
    if c + n < 0x10000 then c + n else R + (c + n - 0x10000) % (0x10000 - R)
  }

  lemma OneTickMore(c: u16, R: u16, n: nat)
    ensures CountAfter(c, R, n) <= 0xFFFF
    ensures if CountAfter(c, R, n) == 0xFFFF then
        CountAfter(c, R, n + 1) == R && Wraps(c, R, n + 1) == Wraps(c, R, n) + 1
      else
        CountAfter(c, R, n + 1) == CountAfter(c, R, n) + 1 && Wraps(c, R, n + 1) == Wraps(c, R, n)
  {
    var span := 0x10000 - R;
    if c + n == 0xFFFF {
      DivModUnique(0, span, 0, 0);
    } else if c + n >= 0x10000 {
      DivOneMore(c + n - 0x10000, span);
    }
  }

  /** The counter of timer `i` and its overflows after `n` ticks, and the timers above it. */
  ghost predicate Counts(chs: seq<Clocked>, i: nat, n: nat, now: nat)
    requires |chs| == 4 && i < 4 && chs[i].reload <= 0xFFFF && chs[i].counter <= 0xFFFF
  {
    var c, R := chs[i].counter, chs[i].reload;
    var out := TickTimes(chs, i, n, now);
    && out.channels[i] == chs[i].(counter := CountAfter(c, R, n))
    && Reports(out.log, i) == Wraps(c, R, n)
    && out.channels[i + 1..] == CascadeTimes(chs, i, Wraps(c, R, n), now)[i + 1..]
  }

  lemma CountsOneMore(chs: seq<Clocked>, i: nat, n: nat, now: nat)
    requires |chs| == 4 && i < 4 && chs[i].reload <= 0xFFFF && chs[i].counter <= 0xFFFF && Counts(chs, i, n, now)
    ensures Counts(chs, i, n + 1, now)
  {
    hide CascadeTimes, Wraps, CountAfter;
    var a := TickTimes(chs, i, n, now);
    OneTickMore(chs[i].counter, chs[i].reload, n);
    TickOnce(a.channels, i, now);
    ReportsAdd(a.log, Tick(a.channels, i, now).log, i);
    CascadeOnceMore(chs, a.channels, i, Wraps(chs[i].counter, chs[i].reload, n), n, now);
  }

  /**
   n ticks overflow the timer first when the counter passes 0xFFFF and then every 0x10000 - R ticks,
   and leave it where that says; the timers above have been clocked once per overflow.
   */
  lemma {:induction false} TicksToOverflows(chs: seq<Clocked>, i: nat, n: nat, now: nat)
    requires |chs| == 4 && i < 4 && chs[i].reload <= 0xFFFF && chs[i].counter <= 0xFFFF
    ensures Counts(chs, i, n, now)
    decreases n
  {
    if n == 0 {
      assert CascadeTimes(chs, i, 0, now) == chs;
    } else {
      hide Counts;
      TicksToOverflows(chs, i, n - 1, now);
      CountsOneMore(chs, i, n - 1, now);
    }
  }

  lemma CascadeOnceMore(chs: seq<Clocked>, a: seq<Clocked>, i: nat, m: nat, n: nat, now: nat)
    requires |chs| == 4 && i < 4 && a == TickTimes(chs, i, n, now).channels
    requires a[i + 1..] == CascadeTimes(chs, i, m, now)[i + 1..]
    ensures CascadeTimes(a, i, 0, now)[i + 1..] == CascadeTimes(chs, i, m, now)[i + 1..]
    ensures CascadeTimes(a, i, 1, now)[i + 1..] == CascadeTimes(chs, i, m + 1, now)[i + 1..]
  {
    var b := CascadeTimes(chs, i, m, now);
    TickTimesKeepsSetup(chs, i, n, now);
    if i + 1 < 4 && chs[i + 1].CountsOverflows() {
      TickReadsSuffix(a, b, i + 1, now);
      assert TickTimes(a, i + 1, 0, now).channels == a;
      assert TickTimes(a, i + 1, 1, now).channels == Tick(a, i + 1, now).channels;
      assert TickTimes(chs, i + 1, m + 1, now).channels == Tick(b, i + 1, now).channels;
    }
  }

  /** A count-up timer above a timer, both reloading 0, together count modulo 2^32. */
  lemma CascadedPairIsOneCounter(chs: seq<Clocked>, i: nat, n: nat, now: nat)
    requires |chs| == 4 && i < 3 && chs[i + 1].CountsOverflows()
    requires chs[i].reload == 0 == chs[i + 1].reload && chs[i].counter <= 0xFFFF && chs[i + 1].counter <= 0xFFFF
    ensures var out := TickTimes(chs, i, n, now).channels;
      out[i].counter + 0x10000 * out[i + 1].counter ==
      (chs[i].counter + 0x10000 * chs[i + 1].counter + n) % 0x1_0000_0000
  {
    hide TickTimes, Reports, Wraps, CountAfter;
    var low, high := chs[i].counter + n, chs[i + 1].counter;
    TicksToOverflows(chs, i, n, now);
    FromZero(chs[i].counter, n);
    TicksToOverflows(chs, i + 1, low / 0x10000, now);
    FromZero(high, low / 0x10000);
    var out := TickTimes(chs, i, n, now).channels;
    assert out[i + 1] == out[i + 1..][0] == CascadeTimes(chs, i, low / 0x10000, now)[i + 1..][0];
    SplitPair(low, high);
  }

  lemma FromZero(c: u16, n: nat)
    ensures Wraps(c, 0, n) == (c + n) / 0x10000 && CountAfter(c, 0, n) == (c + n) % 0x10000
  {
  }

  lemma SplitPair(low: nat, high: nat)
    ensures low % 0x10000 + 0x10000 * ((high + low / 0x10000) % 0x10000) == (low + 0x10000 * high) % 0x1_0000_0000
  {
  }

  // ---- overflow times ---------------------------------------------------------------------------

  function CyclesOf(log: seq<Overflowed>, i: nat): seq<nat> {
    if log == [] then [] else (if log[0].timer == i then [log[0].cycle] else []) + CyclesOf(log[1..], i)
  }

  /** start, start + span, ... up to `limit`. */
  function Progression(start: nat, span: nat, limit: nat): seq<nat>
    requires span > 0
    decreases limit + 1 - start
  {
    if start > limit then [] else [start] + Progression(start + span, span, limit)
  }

  lemma {:induction false} CyclesOfConcat(a: seq<Overflowed>, b: seq<Overflowed>, i: nat)
    ensures CyclesOf(a + b, i) == CyclesOf(a, i) + CyclesOf(b, i)
  {
    if a == [] {
      assert a + b == b;
    } else {
      assert (a + b)[0] == a[0] && (a + b)[1..] == a[1..] + b;
      CyclesOfConcat(a[1..], b, i);
      ConcatAssociates(if a[0].timer == i then [a[0].cycle] else [], CyclesOf(a[1..], i), CyclesOf(b, i));
    }
  }

  lemma {:induction false} CyclesOfOthers(log: seq<Overflowed>, i: nat)
    requires forall e :: e in log ==> e.timer != i
    ensures CyclesOf(log, i) == []
  {
    if log != [] {
      CyclesOfOthers(log[1..], i);
    }
  }

  /** A cascade reports count-up timers only. */
  lemma {:induction false} CascadeReports(chs: Bank, i: nat, now: nat)
    requires i < 4
    ensures forall e :: e in TickCascade(chs, i, now).log ==> i <= e.timer < 4 && Cascades(chs[e.timer])
    decreases 4 - i, 1
  {
    var ch := chs[i];
    var ticked := chs[i := ch.(counter := (ch.counter + 1) % 0x10000)];
    if Cascades(ch) && ticked[i].counter == 0 {
      hide TickAbove;
      var reloaded := ticked[i := ticked[i].(counter := ticked[i].reload, started := now)];
      AboveReports(reloaded, i, now);
      assert TickCascade(chs, i, now) == Overflow(ticked, i, now);
      assert Overflow(ticked, i, now).log == [Overflowed(i, now, ch.control.irq)] + TickAbove(reloaded, i, now).log;
    }
  }

  lemma {:induction false} AboveReports(chs: Bank, i: nat, now: nat)
    requires i < 4
    ensures forall e :: e in TickAbove(chs, i, now).log ==> i < e.timer < 4 && Cascades(chs[e.timer])
    decreases 4 - i, 0
  {
    if i + 1 < 4 {
      CascadeReports(chs, i + 1, now);
    }
  }

  /** Cycles from one overflow to the next. */
  function Span(ch: Channel): (s: nat)
    requires ch.period > 0 && ch.reload <= 0xFFFF
    ensures s > 0
  {
    MulMonotone(1, 0x10000 - ch.reload, ch.period);
    (0x10000 - ch.reload) * ch.period
  }

  lemma NoWritesNoWriteEvents(chs: Bank, k: nat, limit: nat)
    requires PendingWrites(chs) == 0 && k < SLOTS && Due(chs, k) <= limit < NEVER
    ensures k < 4
  {
    assert WritesOf(chs[0]) == 0 && WritesOf(chs[1]) == 0 && WritesOf(chs[2]) == 0 && WritesOf(chs[3]) == 0;
  }

  /** What the overflow of timer k does to running timer i. */
  lemma OverflowSeenBy(chs: Bank, k: nat, now: nat, i: nat)
    requires k < 4 && i < 4 && chs[i].Counting()
    ensures CyclesOf(Overflow(chs, k, now).log, i) == if k == i then [now] else []
    ensures Overflow(chs, k, now).channels[i] == if k == i then chs[i].(counter := chs[i].reload).Start(now, 0) else chs[i]
  {
    OverflowFrame(chs, k, now);
    var out := Overflow(chs, k, now);
    if k != i {
      assert CascadeFrame(chs, out.channels[k := chs[k]], k + 1);
      assert out.channels[i] == out.channels[k := chs[k]][i];
    }
    var reloaded := chs[k := chs[k].(counter := chs[k].reload, started := now)];
    var above := TickAbove(reloaded, k, now).log;
    AboveReports(reloaded, k, now);
    CyclesOfOthers(above, i);
    var first := [Overflowed(k, now, chs[k].control.irq)];
    assert first[1..] == [];
    CyclesOfConcat(first, above, i);
  }

  /** Every channel is in shape and nothing is due before cycle `now`. */
  predicate Ready(chs: Bank, now: nat) {
    Shaped(chs, now) && forall j :: 0 <= j < SLOTS ==> Due(chs, j) >= now
  }

  /** A timer restarted from its reload value overflows one span later. */
  lemma RestartedNext(ch: Channel, last: int, now: nat)
    requires Shape(ch, last) && ch.running
    ensures var next := ch.(counter := ch.reload).Start(now, 0);
      next.running && Span(next) == Span(ch) && next.nextEvent == now + Span(ch)
  {
    SpanBounds(ch.reload, ch.period);
  }

  lemma OverflowKeepsReady(chs: Bank, k: nat, last: nat, limit: nat)
    requires k < 4 && Ready(chs, last) && IsNext(chs, limit, k) && limit <= HORIZON
    ensures last <= Due(chs, k) && Ready(Service(chs, k).channels, Due(chs, k))
  {
    hide Shape;
    ShapedLater(chs, last, Due(chs, k));
    OverflowFromBelowIsShaped(chs, k, Due(chs, k));
    OverflowKeepsOtherEvents(chs, k, Due(chs, k));
    OverflowFrame(chs, k, Due(chs, k));
  }

  /** The state right after the overflow of timer k, as running timer i sees it. */
  lemma AfterOverflow(chs: Bank, k: nat, last: nat, limit: nat, i: nat)
    requires i < 4 && k < 4 && Ready(chs, last) && IsNext(chs, limit, k) && limit <= HORIZON && chs[i].running
    ensures var now := Due(chs, k); var out := Service(chs, k);
      && last <= now && Ready(out.channels, now) && out.channels[i].running && Span(out.channels[i]) == Span(chs[i])
      && CyclesOf(out.log, i) == (if k == i then [now] else [])
      && out.channels[i] == (if k == i then chs[i].(counter := chs[i].reload).Start(now, 0) else chs[i])
      && out.channels[i].nextEvent == (if k == i then now + Span(chs[i]) else chs[i].nextEvent)
  {
    OverflowKeepsReady(chs, k, last, limit);
    assert Shape(chs[i], last);
    RestartedNext(chs[i], last, Due(chs, k));
    OverflowSeenBy(chs, k, Due(chs, k), i);
    hide CyclesOf, Span, Ready, Shape, IsNext, Overflow;
  }

  /** With no register write pending, a running timer overflows at an arithmetic progression of cycles. */
  lemma {:induction false} OverflowsFormProgression(chs: Bank, i: nat, last: nat, limit: nat)
    requires i < 4 && Ready(chs, last) && last <= limit <= HORIZON
    requires PendingWrites(chs) == 0 && chs[i].running
    ensures CyclesOf(AdvanceTo(chs, limit).log, i) == Progression(chs[i].nextEvent, Span(chs[i]), limit)
    decreases Distance(chs, limit)
  {
    hide AdvanceTo, BestOf, Service, CyclesOf, Span, Distance, PendingWrites;
    assert Shape(chs[i], last);
    var slot := NextSlot(chs, limit);
    if slot.None? {
      AdvanceWhenQuiet(chs, limit);
      assert Due(chs, i) > limit;
      CyclesOfOthers([], i);
    } else {
      var k := slot.value;
      NoWritesNoWriteEvents(chs, k, limit);
      AdvanceByOne(chs, limit, k);
      OneOverflowLess(chs, limit, k);
      AfterOverflow(chs, k, last, limit, i);
      var out := Service(chs, k);
      assert Due(chs, i) >= Due(chs, k);
      OverflowsFormProgression(out.channels, i, Due(chs, k), limit);
      CyclesOfConcat(out.log, AdvanceTo(out.channels, limit).log, i);
    }
  }

  /** The counter a program reads from channel `ch`. */
  function Reading(ch: Channel, now: nat): nat
    requires ch.period > 0
  {
    ch.counter + ch.Ticks(now)
  }

  /** Ticks counted from the overflow at `nextEvent` on come after those that led up to it. */
  lemma TicksSplitAtOverflow(ch: Channel, last: nat, limit: nat)
    requires Shape(ch, last) && ch.running && ch.nextEvent <= limit
    ensures var next := ch.(counter := ch.reload).Start(ch.nextEvent, 0);
      ch.counter + ch.Ticks(limit) == 0x10000 + next.Ticks(limit)
  {
    var p := ch.period;
    var lead := 0x10000 - ch.counter;
    SpanBounds(ch.counter, p);
    var x := limit - ch.nextEvent;
    var q, r := x / p, x % p;
    assert limit - ch.started == (lead + q) * p + r by {
      assert (lead + q) * p == lead * p + q * p;
    }
    DivModUnique(limit - ch.started, p, lead + q, r);
    DivModUnique(x, p, q, r);
  }

  lemma WrapsAfterOverflow(c: u16, R: u16, n: nat, rest: nat)
    requires c + n == 0x10000 + rest
    ensures Wraps(c, R, n) == 1 + Wraps(R, R, rest) && CountAfter(c, R, n) == CountAfter(R, R, rest)
  {
    var span := 0x10000 - R;
    if rest < span {
      DivModUnique(rest, span, 0, rest);
    } else {
      var q, r := (rest - span) / span, (rest - span) % span;
      assert rest == (q + 1) * span + r;
      DivModUnique(rest, span, q + 1, r);
    }
  }

  /**
   With no register write pending, however the timers are advanced, a running timer overflows as often
   in its elapsed cycles as that many prescaler periods make ticks, and its counter reads accordingly.
   */
  lemma {:induction false} ElapsedCyclesAreTicks(chs: Bank, i: nat, last: nat, limit: nat)
    requires i < 4 && Ready(chs, last) && last <= limit <= HORIZON
    requires PendingWrites(chs) == 0 && chs[i].running
    ensures var out := AdvanceTo(chs, limit); var n := chs[i].Ticks(limit);
      && |CyclesOf(out.log, i)| == Wraps(chs[i].counter, chs[i].reload, n)
      && out.channels[i].period > 0
      && Reading(out.channels[i], limit) == CountAfter(chs[i].counter, chs[i].reload, n)
    decreases Distance(chs, limit)
  {
    hide AdvanceTo, BestOf, Service, CyclesOf, Span, Distance, PendingWrites, Wraps, CountAfter;
    assert Shape(chs[i], last);
    var slot := NextSlot(chs, limit);
    if slot.None? {
      AdvanceWhenQuiet(chs, limit);
      assert Due(chs, i) > limit;
      CyclesOfOthers([], i);
      NoWrapBeforeEvent(chs[i], last, limit);
    } else {
      var k := slot.value;
      NoWritesNoWriteEvents(chs, k, limit);
      AdvanceByOne(chs, limit, k);
      OneOverflowLess(chs, limit, k);
      AfterOverflow(chs, k, last, limit, i);
      var out := Service(chs, k);
      assert Due(chs, i) >= Due(chs, k);
      ElapsedCyclesAreTicks(out.channels, i, Due(chs, k), limit);
      CyclesOfConcat(out.log, AdvanceTo(out.channels, limit).log, i);
      if k == i {
        TicksSplitAtOverflow(chs[i], last, limit);
        WrapsAfterOverflow(chs[i].counter, chs[i].reload, chs[i].Ticks(limit), out.channels[i].Ticks(limit));
      }
    }
  }

  lemma NoWrapBeforeEvent(ch: Channel, last: nat, limit: nat)
    requires Shape(ch, last) && ch.running && ch.nextEvent > limit
    ensures Wraps(ch.counter, ch.reload, ch.Ticks(limit)) == 0
    ensures CountAfter(ch.counter, ch.reload, ch.Ticks(limit)) == ch.counter + ch.Ticks(limit)
  {
    if limit > ch.started {
      WrapsExactlyAtNextEvent(ch.counter, ch.period, limit - ch.started);
    }
  }

  lemma OneOverflowLess(chs: Bank, limit: nat, k: nat)
    requires k < 4 && Due(chs, k) <= limit < NEVER
    ensures var out := Service(chs, k).channels;
      PendingWrites(out) == PendingWrites(chs) && Distance(out, limit) < Distance(chs, limit)
  {
    OverflowDecreases(chs, limit, k);
  }
}
