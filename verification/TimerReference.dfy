/**
 The reference for the timers: a machine that is clocked once per cycle, counts prescaler cycles and
 increments counters one at a time. The event machine of module Timers must show the same counters and
 report the same overflows at the same cycles, however far it skips ahead.
 */
module TimerReference {
  import opened Basics
  import opened Timers

  // ---- invariants of the event machine -------------------------------------------------------

  /** Cycle numbers that leave room for signed 64-bit timestamps. */
  const HORIZON: nat := 0x4000_0000_0000_0000

  /**
   What holds of a channel at every cycle: a timer runs iff it is enabled and does not count up, and
   its next event is exactly where its counter will reach 0x10000.
   */
  predicate Shape(ch: Channel, now: int) {
    && ch.counter <= 0xFFFF && ch.reload <= 0xFFFF && ch.pendingReload <= 0xFFFF
    && ch.period == Period(ch.control.prescaler)
    && (ch.running <==> ch.control.enable && !ch.control.countUp)
    && ch.started <= now + 1
    && (if ch.running then ch.nextEvent == ch.started + (0x10000 - ch.counter) * ch.period else ch.nextEvent == NEVER)
    && (if ch.reloadPending then ch.reloadAt < NEVER else ch.reloadAt == NEVER)
    && (if ch.controlPending then ch.controlAt < NEVER else ch.controlAt == NEVER)
  }

  predicate ShapedFrom(chs: Bank, i: nat, now: int) {
    forall j :: i <= j < 4 ==> Shape(chs[j], now)
  }

  predicate Shaped(chs: Bank, now: int) {
    ShapedFrom(chs, 0, now)
  }

  /** The timers as they stand after every event up to `now` has been serviced. */
  predicate Valid(chs: Bank, now: int) {
    Shaped(chs, now) && Quiet(chs, now)
  }

  lemma MulMonotone(a: nat, b: nat, c: nat)
    requires a <= b
    ensures a * c <= b * c
  {
  }

  /** Cycles to the next overflow: at least one tick, at most 0x10000 of 1024 cycles. */
  lemma SpanBounds(counter: nat, period: nat)
    requires counter <= 0xFFFF && 0 < period <= 1024
    ensures period <= (0x10000 - counter) * period <= 0x400_0000
  {
    MulMonotone(1, 0x10000 - counter, period);
    MulMonotone(0x10000 - counter, 0x10000, period);
  }

  /** The visible counter reaches 0x10000 exactly at started + (0x10000 - counter) * period. */
  lemma WrapsExactlyAtNextEvent(counter: nat, period: nat, elapsed: nat)
    requires counter <= 0xFFFF && period > 0
    ensures counter + elapsed / period >= 0x10000 <==> elapsed >= (0x10000 - counter) * period
  {
    var q := elapsed / period;
    assert q * period <= elapsed < q * period + period;
    if q >= 0x10000 - counter {
      MulMonotone(0x10000 - counter, q, period);
    } else {
      MulMonotone(q + 1, 0x10000 - counter, period);
      assert (q + 1) * period == q * period + period;
    }
  }

  lemma StartIsShaped(ch: Channel, now: nat, offset: int)
    requires ch.counter <= 0xFFFF && ch.period == Period(ch.control.prescaler) && -1 <= offset < ch.period
    requires ch.control.enable && !ch.control.countUp && ch.reload <= 0xFFFF && ch.pendingReload <= 0xFFFF
    requires if ch.reloadPending then ch.reloadAt < NEVER else ch.reloadAt == NEVER
    requires if ch.controlPending then ch.controlAt < NEVER else ch.controlAt == NEVER
    ensures Shape(ch.Start(now, offset), now) && ch.Start(now, offset).nextEvent > now
  {
    SpanBounds(ch.counter, ch.period);
  }

  lemma {:induction false} CascadeIsShaped(chs: Bank, i: nat, now: nat)
    requires i < 4 && ShapedFrom(chs, i, now)
    ensures ShapedFrom(TickCascade(chs, i, now).channels, i, now)
    decreases 4 - i, 1
  {
    var ch := chs[i];
    var ticked := chs[i := ch.(counter := (ch.counter + 1) % 0x10000)];
    if Cascades(ch) && ticked[i].counter == 0 {
      assert Shape(ticked[i], now);
      OverflowIsShaped(ticked, i, now);
    }
  }

  lemma {:induction false} OverflowIsShaped(chs: Bank, i: nat, now: nat)
    requires i < 4 && ShapedFrom(chs, i, now)
    ensures ShapedFrom(Overflow(chs, i, now).channels, i, now)
    decreases 4 - i, 0
  {
    OverflowFrame(chs, i, now);
    if chs[i].Counting() {
      StartIsShaped(chs[i].(counter := chs[i].reload), now, 0);
    }
    assert Shape(Overflow(chs, i, now).channels[i], now);
    if i + 1 < 4 {
      CascadeIsShaped(chs[i := chs[i].(counter := chs[i].reload, started := now)], i + 1, now);
    }
  }

  lemma OverflowFromBelowIsShaped(chs: Bank, i: nat, now: nat)
    requires i < 4 && Shaped(chs, now)
    ensures Shaped(Overflow(chs, i, now).channels, now)
  {
    OverflowIsShaped(chs, i, now);
    OverflowFrame(chs, i, now);
    var out := Overflow(chs, i, now).channels;
    assert CascadeFrame(chs, out[i := chs[i]], i + 1);
    forall j | 0 <= j < i
      ensures Shape(out[j], now)
    {
      assert out[i := chs[i]][j] == chs[j];
    }
  }

  /**
   A control write never finds its timer overdue, so the overflow that stop_channel could report is
   never taken.
   */
  lemma StopNeverOverflows(chs: Bank, limit: nat, slot: nat)
    requires IsNext(chs, limit, slot) && 8 <= slot && limit <= HORIZON
    requires Shaped(chs, Due(chs, slot))
    ensures var ch := chs[slot % 4]; ch.running ==> !ch.StopOverflows(Due(chs, slot))
  {
    var ch, now := chs[slot % 4], Due(chs, slot);
    assert Due(chs, slot % 4) > now || !ch.running;
    if ch.running && now > ch.started {
      WrapsExactlyAtNextEvent(ch.counter, ch.period, now - ch.started);
    }
  }

  lemma ApplyControlIsShaped(ch: Channel, now: nat)
    requires Shape(ch.(running := false, nextEvent := NEVER, control := ch.control.(enable := false)), now)
    requires !ch.running
    ensures Shape(ch.ApplyControl(now), now)
    ensures ch.ApplyControl(now).Counting() ==> ch.ApplyControl(now).nextEvent > now
  {
    var c := ch.(control := ch.pendingControl, period := Period(ch.pendingControl.prescaler));
    if c.control.enable && !c.control.countUp {
      var offset := now % c.period;
      if ch.control.enable {
        StartIsShaped(c, now, offset);
      } else if c.counter == 0xFFFF && offset == 0 {
        StartIsShaped(c, now, 0);
      } else {
        StartIsShaped(c.(counter := c.reload), now, offset - 1);
      }
    }
  }

  /** Servicing a slot keeps the channels in shape and leaves that slot with nothing due. */
  lemma ServiceIsShaped(chs: Bank, limit: nat, slot: nat)
    requires IsNext(chs, limit, slot) && limit <= HORIZON && Shaped(chs, Due(chs, slot))
    ensures var now := Due(chs, slot); var out := Service(chs, slot).channels;
      && Shaped(out, now)
      && Due(out, slot) > now
      && (forall k :: 0 <= k < SLOTS && k != slot && k % 4 != slot % 4 ==> Due(out, k) == Due(chs, k))
      && (forall k :: 0 <= k < SLOTS && k != slot && k % 4 == slot % 4 ==> Due(out, k) == Due(chs, k) || Due(out, k) > now)
  {
    var i, now := slot % 4, Due(chs, slot);
    if slot < 4 {
      OverflowFrame(chs, i, now);
      OverflowFromBelowIsShaped(chs, i, now);
      OverflowKeepsOtherEvents(chs, i, now);
    } else if 8 <= slot {
      StopNeverOverflows(chs, limit, slot);
      var step := StopForControl(chs, i, now);
      ApplyControlIsShaped(step.channels[i], now);
    }
  }

  lemma ShapedLater(chs: Bank, now: int, later: int)
    requires Shaped(chs, now) && now <= later
    ensures Shaped(chs, later)
  {
    assert forall j :: 0 <= j < 4 ==> Shape(chs[j], now) ==> Shape(chs[j], later);
  }

  /** Every state the event machine reaches by advancing is valid at the cycle it advanced to. */
  lemma {:induction false} AdvanceKeepsValid(chs: Bank, last: int, limit: nat)
    requires Shaped(chs, last) && Quiet(chs, last - 1) && last <= limit <= HORIZON
    ensures Valid(AdvanceTo(chs, limit).channels, limit)
    decreases PendingWrites(chs), Distance(chs, limit)
  {
    var slot := NextSlot(chs, limit);
    if slot.Some? {
      var k := slot.value;
      var now: int := Due(chs, k);
      ShapedLater(chs, last, now);
      ServiceIsShaped(chs, limit, k);
      ServiceDecreases(chs, limit, k);
      AdvanceByOne(chs, limit, k);
      var out := Service(chs, k).channels;
      assert Quiet(out, now - 1) by {
        forall j | 0 <= j < SLOTS
          ensures Due(out, j) >= now
        {
        }
      }
      AdvanceKeepsValid(out, now, limit);
    } else {
      ShapedLater(chs, last, limit);
      AdvanceWhenQuiet(chs, limit);
    }
  }

  // ---- the machine that is clocked every cycle -----------------------------------------------

  /** A channel as hardware holds it: the counter itself and the cycles since its last tick. */
  datatype Clocked = Clocked(
    reload: nat, pendingReload: nat, reloadPending: bool, reloadAt: nat,
    control: Control, pendingControl: Control, controlPending: bool, controlAt: nat,
    counter: nat, sub: int)
  {
    predicate Counting() {
      control.enable && !control.countUp
    }

    predicate CountsOverflows() {
      control.enable && control.countUp
    }

    /** A control write takes effect: restart the prescaler in phase with the system clock. */
    function ApplyControl(now: nat): Clocked {
      var ch := this.(controlPending := false, controlAt := NEVER, control := pendingControl, sub := 0);
      var offset := now % Period(pendingControl.prescaler);
      if ch.control.enable && !control.enable then
        if ch.control.countUp then ch.(counter := reload)
        else if counter == 0xFFFF && offset == 0 then ch
        else ch.(counter := reload, sub := offset - 1)
      else if ch.Counting() then ch.(sub := offset)
      else ch
    }
  }

  datatype ClockedStep = ClockedStep(channels: seq<Clocked>, log: seq<Overflowed>)

  /** Add one to counter i; at 0x10000 reload it, report, and add one to the next if it counts up. */
  function Tick(chs: seq<Clocked>, i: nat, now: nat): (out: ClockedStep)
    requires |chs| == 4 && i < 4
    ensures |out.channels| == 4
    decreases 4 - i, 1
  {
    if chs[i].counter != 0xFFFF then ClockedStep(chs[i := chs[i].(counter := chs[i].counter + 1)], [])
    else
      var rest := TickNext(chs[i := chs[i].(counter := chs[i].reload)], i, now);
      ClockedStep(rest.channels, [Overflowed(i, now, chs[i].control.irq)] + rest.log)
  }

  function TickNext(chs: seq<Clocked>, i: nat, now: nat): (out: ClockedStep)
    requires |chs| == 4 && i < 4
    ensures |out.channels| == 4
    decreases 4 - i, 0
  {
    if i + 1 < 4 && chs[i + 1].CountsOverflows() then Tick(chs, i + 1, now) else ClockedStep(chs, [])
  }

  /** One cycle of timer i's prescaler. */
  function ClockTimer(chs: seq<Clocked>, i: nat, now: nat): (out: ClockedStep)
    requires |chs| == 4 && i < 4
    ensures |out.channels| == 4
  {
    if !chs[i].Counting() then ClockedStep(chs, [])
    else if chs[i].sub + 1 < Period(chs[i].control.prescaler) then ClockedStep(chs[i := chs[i].(sub := chs[i].sub + 1)], [])
    else Tick(chs[i := chs[i].(sub := 0)], i, now)
  }

  /** The twelve things that happen within cycle `now`, in order. */
  function Phase(chs: seq<Clocked>, k: nat, now: nat): (out: ClockedStep)
    requires |chs| == 4 && k < SLOTS
    ensures |out.channels| == 4
  {
    var i := k % 4;
    if k < 4 then ClockTimer(chs, i, now)
    else if k < 8 then
      if chs[i].reloadPending && chs[i].reloadAt == now then
        ClockedStep(chs[i := chs[i].(reload := chs[i].pendingReload, reloadPending := false, reloadAt := NEVER)], [])
      else ClockedStep(chs, [])
    else
      if chs[i].controlPending && chs[i].controlAt == now then ClockedStep(chs[i := chs[i].ApplyControl(now)], [])
      else ClockedStep(chs, [])
  }

  function PhasesFrom(chs: seq<Clocked>, k: nat, now: nat): (out: ClockedStep)
    requires |chs| == 4 && k <= SLOTS
    ensures |out.channels| == 4
    decreases SLOTS - k
  {
    if k == SLOTS then ClockedStep(chs, [])
    else
      var a := Phase(chs, k, now);
      var b := PhasesFrom(a.channels, k + 1, now);
      ClockedStep(b.channels, a.log + b.log)
  }

  /** Clock the machine through the cycles first+1, ..., last. */
  function RunCycles(chs: seq<Clocked>, first: nat, last: nat): (out: ClockedStep)
    requires |chs| == 4 && first <= last
    ensures |out.channels| == 4
    decreases last
  {
    if first == last then ClockedStep(chs, [])
    else
      var a := RunCycles(chs, first, last - 1);
      var b := PhasesFrom(a.channels, 0, last);
      ClockedStep(b.channels, a.log + b.log)
  }

  // ---- the abstraction ------------------------------------------------------------------------

  /** What channel `ch` of the event machine stands for at cycle `now`. */
  function View(ch: Channel, now: int): Clocked
    requires ch.period > 0
  {
    Clocked(ch.reload, ch.pendingReload, ch.reloadPending, ch.reloadAt,
            ch.control, ch.pendingControl, ch.controlPending, ch.controlAt,
            ch.counter + ch.Ticks(now),
            if !ch.Counting() then 0 else if now <= ch.started then now - ch.started else (now - ch.started) % ch.period)
  }

  function ViewAll(chs: Bank, now: int): (v: seq<Clocked>)
    ensures |v| == 4 && forall j :: 0 <= j < 4 ==> v[j] == View(chs[j], now)
  {
    [View(chs[0], now), View(chs[1], now), View(chs[2], now), View(chs[3], now)]
  }

  /** Within cycle `now`, channels below `k` have been clocked and the others stand at the cycle before. */
  ghost predicate Mirrors(r: seq<Clocked>, chs: Bank, k: nat, now: int) {
    |r| == 4 && forall j :: 0 <= j < 4 ==> r[j] == View(chs[j], if j < k then now else now - 1)
  }

  /** A counting channel viewed one cycle later: its prescaler moves on, and ticks at the period. */
  lemma ViewOneCycleLater(ch: Channel, now: nat)
    requires Shape(ch, now) && ch.Counting() && now < ch.nextEvent
    ensures var a, b := View(ch, now - 1), View(ch, now);
      b == if a.sub + 1 < ch.period then a.(sub := a.sub + 1) else a.(sub := 0, counter := a.counter + 1)
    ensures View(ch, now).counter <= 0xFFFF
  {
    if now > ch.started {
      WrapsExactlyAtNextEvent(ch.counter, ch.period, now - ch.started);
      if now > ch.started + 1 {
        DivOneMore(now - 1 - ch.started, ch.period);
      } else {
        DivOneMore(0, ch.period);
      }
    }
  }

  lemma DivOneMore(x: nat, d: nat)
    requires d > 0
    ensures if x % d + 1 < d then (x + 1) / d == x / d && (x + 1) % d == x % d + 1
            else (x + 1) / d == x / d + 1 && (x + 1) % d == 0
  {
    var q, r := x / d, x % d;
    assert x == q * d + r;
    if r + 1 < d {
      DivModUnique(x + 1, d, q, r + 1);
    } else {
      DivModUnique(x + 1, d, q + 1, 0);
    }
  }

  lemma DivModUnique(x: nat, d: nat, q: nat, r: nat)
    requires d > 0 && r < d && x == q * d + r
    ensures x / d == q && x % d == r
  {
    var q', r' := x / d, x % d;
    assert x == q' * d + r';
    if q' < q {
      MulMonotone(q' + 1, q, d);
    } else if q < q' {
      MulMonotone(q + 1, q', d);
    }
  }

  /** At its next event a channel stands one tick short of 0x10000, one cycle short of that tick. */
  lemma ViewBeforeOverflow(ch: Channel, now: nat)
    requires Shape(ch, now) && ch.Counting() && now == ch.nextEvent
    ensures View(ch, now - 1).counter == 0xFFFF && View(ch, now - 1).sub + 1 == ch.period
  {
    var n := 0x10000 - ch.counter;
    SpanBounds(ch.counter, ch.period);
    assert now - 1 - ch.started == (n - 1) * ch.period + (ch.period - 1);
    if now - 1 > ch.started {
      DivModUnique(now - 1 - ch.started, ch.period, n - 1, ch.period - 1);
    }
  }

  /** From channel `i` on, `r` shows the channels of `chs` at the cycles `at`. */
  ghost predicate MirrorsFrom(r: seq<Clocked>, chs: Bank, at: seq<int>, i: nat) {
    |r| == 4 && |at| == 4 && forall j :: i <= j < 4 ==> r[j] == View(chs[j], at[j])
  }

  lemma {:induction false} TickFrame(r: seq<Clocked>, i: nat, now: nat)
    requires |r| == 4 && i < 4
    ensures Tick(r, i, now).channels[..i] == r[..i]
    decreases 4 - i
  {
    if r[i].counter == 0xFFFF {
      var r' := r[i := r[i].(counter := r[i].reload)];
      assert r'[..i] == r[..i];
      if i + 1 < 4 && r'[i + 1].CountsOverflows() {
        TickFrame(r', i + 1, now);
        assert Tick(r', i + 1, now).channels[..i] == r'[..i + 1][..i];
      }
    }
  }

  /** A cascaded overflow, unfolded: the count-up channel is reloaded and stays without an event. */
  lemma CascadedOverflow(chs: Bank, i: nat, now: nat)
    requires i < 4 && Shape(chs[i], now) && Cascades(chs[i]) && chs[i].counter == 0xFFFF
    ensures var reloaded := chs[i := chs[i].(counter := chs[i].reload, started := now)];
      var rest := TickAbove(reloaded, i, now);
      TickCascade(chs, i, now) == Step(rest.channels, [Overflowed(i, now, chs[i].control.irq)] + rest.log)
  {
    var reloaded := chs[i := chs[i].(counter := chs[i].reload, started := now)];
    var ticked := chs[i := chs[i].(counter := 0)];
    assert ticked[i := ticked[i].(counter := ticked[i].reload, started := now)] == reloaded;
    if i + 1 < 4 {
      TickCascadeFrame(reloaded, i + 1, now);
    }
    assert TickAbove(reloaded, i, now).channels[i] == reloaded[i];
    assert TickCascade(chs, i, now) == Overflow(ticked, i, now);
  }

  /** The counter that cascades past 0xFFFF stays as reloaded while those above it move. */
  lemma AboveKeepsBelow(r: seq<Clocked>, chs: Bank, i: nat, now: nat)
    requires |r| == 4 && i < 4
    ensures TickAbove(chs, i, now).channels[i] == chs[i]
    ensures TickNext(r, i, now).channels[..i + 1] == r[..i + 1]
  {
    if i + 1 < 4 {
      TickCascadeFrame(chs, i + 1, now);
      if r[i + 1].CountsOverflows() {
        TickFrame(r, i + 1, now);
      }
    }
  }

  lemma TickWraps(r: seq<Clocked>, i: nat, now: nat)
    requires |r| == 4 && i < 4 && r[i].counter == 0xFFFF
    ensures var rest := TickNext(r[i := r[i].(counter := r[i].reload)], i, now);
      Tick(r, i, now) == ClockedStep(rest.channels, [Overflowed(i, now, r[i].control.irq)] + rest.log)
  {
    hide TickNext;
  }

  lemma CascadeWithoutWrap(r: seq<Clocked>, chs: Bank, at: seq<int>, i: nat, now: nat)
    requires i < 4 && MirrorsFrom(r, chs, at, i) && Shape(chs[i], now) && Cascades(chs[i]) && chs[i].counter != 0xFFFF
    ensures MirrorsFrom(Tick(r, i, now).channels, TickCascade(chs, i, now).channels, at, i)
    ensures Tick(r, i, now).log == [] == TickCascade(chs, i, now).log
  {
    assert r[i] == View(chs[i], at[i]);
    hide Overflow, TickNext;
  }

  /** Cascading through count-up channels is the same in both machines. */
  lemma {:induction false} CascadeAgrees(r: seq<Clocked>, chs: Bank, at: seq<int>, i: nat, now: nat)
    requires i < 4 && MirrorsFrom(r, chs, at, i) && ShapedFrom(chs, i, now) && Cascades(chs[i])
    ensures MirrorsFrom(Tick(r, i, now).channels, TickCascade(chs, i, now).channels, at, i)
    ensures Tick(r, i, now).log == TickCascade(chs, i, now).log
    decreases 4 - i, 1
  {
    assert r[i] == View(chs[i], at[i]) && Shape(chs[i], now);
    if chs[i].counter == 0xFFFF {
      var reloaded := chs[i := chs[i].(counter := chs[i].reload, started := now)];
      var r' := r[i := r[i].(counter := r[i].reload)];
      assert r'[i] == View(reloaded[i], at[i]);
      hide TickAbove, TickNext, Tick, TickCascade, View, Shape;
      CascadedOverflow(chs, i, now);
      TickWraps(r, i, now);
      AboveAgrees(r', reloaded, at, i, now);
      AboveKeepsBelow(r', reloaded, i, now);
      assert TickNext(r', i, now).channels[i] == TickNext(r', i, now).channels[..i + 1][i];
    } else {
      CascadeWithoutWrap(r, chs, at, i, now);
    }
  }

  lemma {:induction false} AboveAgrees(r: seq<Clocked>, chs: Bank, at: seq<int>, i: nat, now: nat)
    requires i < 4 && MirrorsFrom(r, chs, at, i + 1) && ShapedFrom(chs, i + 1, now)
    ensures MirrorsFrom(TickNext(r, i, now).channels, TickAbove(chs, i, now).channels, at, i + 1)
    ensures TickNext(r, i, now).log == TickAbove(chs, i, now).log
    decreases 4 - i, 0
  {
    if i + 1 < 4 {
      assert r[i + 1] == View(chs[i + 1], at[i + 1]);
      if Cascades(chs[i + 1]) {
        CascadeAgrees(r, chs, at, i + 1, now);
      }
    }
  }

  /** The cycles at which the channels are viewed when those below `k` have been clocked. */
  function Views(k: nat, now: int): (at: seq<int>)
    ensures |at| == 4 && forall j :: 0 <= j < 4 ==> at[j] == if j < k then now else now - 1
  {
    [if 0 < k then now else now - 1, if 1 < k then now else now - 1,
     if 2 < k then now else now - 1, if 3 < k then now else now - 1]
  }

  lemma ClockTimerAtOverflow(r: seq<Clocked>, i: nat, now: nat)
    requires |r| == 4 && i < 4 && r[i].Counting() && r[i].counter == 0xFFFF
    requires r[i].sub + 1 == Period(r[i].control.prescaler)
    ensures var r0 := r[i := r[i].(sub := 0)];
      var rest := TickNext(r0[i := r0[i].(counter := r0[i].reload)], i, now);
      ClockTimer(r, i, now) == ClockedStep(rest.channels, [Overflowed(i, now, r[i].control.irq)] + rest.log)
  {
    hide TickNext;
  }

  /** The overflow of a counting channel is the tick that takes its counter past 0xFFFF. */
  lemma OverflowAgrees(r: seq<Clocked>, chs: Bank, i: nat, now: nat)
    requires i < 4 && Mirrors(r, chs, i, now) && Shaped(chs, now) && chs[i].Counting() && chs[i].nextEvent == now
    ensures Mirrors(ClockTimer(r, i, now).channels, Overflow(chs, i, now).channels, i + 1, now)
    ensures ClockTimer(r, i, now).log == Overflow(chs, i, now).log
  {
    hide TickAbove, TickNext;
    var ch := chs[i];
    assert Shape(ch, now) && r[i] == View(ch, now - 1);
    ViewBeforeOverflow(ch, now);
    var reloaded := chs[i := ch.(counter := ch.reload, started := now)];
    var r0 := r[i := r[i].(sub := 0)];
    var r' := r0[i := r0[i].(counter := r0[i].reload)];
    assert r0[i].counter == 0xFFFF;
    ClockTimerAtOverflow(r, i, now);
    assert MirrorsFrom(r', reloaded, Views(i, now), i + 1);
    AboveAgrees(r', reloaded, Views(i, now), i, now);
    AboveKeepsBelow(r', reloaded, i, now);
    OverflowFrame(chs, i, now);
    hide ClockTimer, Shape, Period;
    var above, above' := TickAbove(reloaded, i, now).channels, TickNext(r', i, now).channels;
    var out := Overflow(chs, i, now).channels;
    forall j | 0 <= j < 4
      ensures above'[j] == View(out[j], if j < i + 1 then now else now - 1)
    {
      if j <= i {
        assert above'[j] == above'[..i + 1][j] == r'[j];
        if j < i {
          assert CascadeFrame(chs, out[i := chs[i]], i + 1);
          assert out[j] == out[i := chs[i]][j];
        }
      } else {
        assert out[j] == above[j];
      }
    }
  }

  /** A channel that does not count looks the same at every cycle. */
  lemma ViewOfIdle(ch: Channel, a: int, b: int)
    requires ch.period > 0 && !ch.Counting()
    ensures View(ch, a) == View(ch, b)
  {
  }

  lemma MirrorsOneMore(r: seq<Clocked>, chs: Bank, k: nat, now: int, x: Clocked)
    requires k < 4 && Mirrors(r, chs, k, now) && x == View(chs[k], now)
    ensures Mirrors(r[k := x], chs, k + 1, now)
  {
    hide View;
  }

  /** A prescaler that moves on without overflowing. */
  lemma IdleClockAgrees(r: seq<Clocked>, chs: Bank, i: nat, now: nat)
    requires i < 4 && Mirrors(r, chs, i, now) && Shaped(chs, now) && Due(chs, i) > now
    ensures ClockTimer(r, i, now) == ClockedStep(r[i := View(chs[i], now)], [])
  {
    var ch := chs[i];
    assert Shape(ch, now) && r[i] == View(ch, now - 1);
    if ch.Counting() {
      ViewOneCycleLater(ch, now);
    } else {
      ViewOfIdle(ch, now - 1, now);
      assert r[i := r[i]] == r;
    }
  }

  /** Nothing is due in slot k: clocking it only moves a prescaler on. */
  lemma IdlePhaseAgrees(r: seq<Clocked>, chs: Bank, k: nat, now: nat)
    requires k < SLOTS && Mirrors(r, chs, k, now) && Shaped(chs, now) && now <= HORIZON && Due(chs, k) > now
    ensures Mirrors(Phase(r, k, now).channels, chs, k + 1, now) && Phase(r, k, now).log == []
  {
    if k < 4 {
      hide ClockTimer, View, Shape;
      IdleClockAgrees(r, chs, k, now);
      MirrorsOneMore(r, chs, k, now, View(chs[k], now));
    } else {
      hide ClockTimer;
      assert Shape(chs[k % 4], now) && r[k % 4] == View(chs[k % 4], now);
    }
  }

  /** A reload write takes effect at its cycle. */
  lemma ReloadPhaseAgrees(r: seq<Clocked>, chs: Bank, k: nat, now: nat)
    requires 4 <= k < 8 && Mirrors(r, chs, k, now) && Shaped(chs, now) && now <= HORIZON && Due(chs, k) == now
    ensures Mirrors(Phase(r, k, now).channels, Service(chs, k).channels, k + 1, now)
    ensures Phase(r, k, now).log == [] == Service(chs, k).log
  {
    hide ClockTimer;
    assert r[k % 4] == View(chs[k % 4], now);
  }

  /** A control write takes effect at its cycle, and stopping a timer then never overflows it. */
  lemma ControlPhaseAgrees(r: seq<Clocked>, chs: Bank, k: nat, now: nat)
    requires 8 <= k < SLOTS && Mirrors(r, chs, k, now) && Shaped(chs, now) && now <= HORIZON
    requires IsNext(chs, now, k) && Due(chs, k) == now
    ensures Mirrors(Phase(r, k, now).channels, Service(chs, k).channels, k + 1, now)
    ensures Phase(r, k, now).log == [] == Service(chs, k).log
  {
    var i := k % 4;
    var ch := chs[i];
    StopNeverOverflows(chs, now, k);
    hide ClockTimer, IsNext;
    assert r[i] == View(ch, now);
    var taken := ch.(controlPending := false, controlAt := NEVER);
    var stopped := if taken.running then taken.Stop(now) else taken;
    var applied := stopped.ApplyControl(now);
    assert Service(chs, k) == Step(chs[i := applied], []);
    ControlWriteAgrees(ch, now);
    assert Phase(r, k, now) == ClockedStep(r[i := View(applied, now)], []);
    hide View, Shape, Service, Phase;
  }

  /** A register write takes effect at its cycle. */
  lemma WriteAgrees(r: seq<Clocked>, chs: Bank, k: nat, now: nat)
    requires 4 <= k < SLOTS && Mirrors(r, chs, k, now) && Shaped(chs, now) && now <= HORIZON
    requires IsNext(chs, now, k) && Due(chs, k) == now
    ensures Mirrors(Phase(r, k, now).channels, Service(chs, k).channels, k + 1, now)
    ensures Phase(r, k, now).log == [] == Service(chs, k).log
  {
    hide *;
    if k < 8 {
      ReloadPhaseAgrees(r, chs, k, now);
    } else {
      ControlPhaseAgrees(r, chs, k, now);
    }
  }

  lemma ControlWriteAgrees(ch: Channel, now: nat)
    requires Shape(ch, now) && ch.controlPending && (ch.running ==> !ch.StopOverflows(now))
    ensures var taken := ch.(controlPending := false, controlAt := NEVER);
      var stopped := if taken.running then taken.Stop(now) else taken;
      View(stopped.ApplyControl(now), now) == View(ch, now).ApplyControl(now)
  {
    var p := Period(ch.pendingControl.prescaler);
    var offset := now % p;
    if offset > 0 {
      DivModUnique(offset, p, 0, offset);
      DivModUnique(offset - 1, p, 0, offset - 1);
    }
  }

  /** Slot k is due: both machines service it, and nothing up to slot k is due any more. */
  lemma DuePhaseAgrees(r: seq<Clocked>, chs: Bank, k: nat, now: nat)
    requires k < SLOTS && Mirrors(r, chs, k, now) && Shaped(chs, now) && now <= HORIZON
    requires IsNext(chs, now, k) && Due(chs, k) == now
    ensures var out := Service(chs, k);
      && Mirrors(Phase(r, k, now).channels, out.channels, k + 1, now) && Phase(r, k, now).log == out.log
      && Shaped(out.channels, now)
      && (forall j :: 0 <= j < SLOTS ==> Due(out.channels, j) >= now)
      && (forall j :: 0 <= j <= k ==> Due(out.channels, j) > now)
  {
    assert Shaped(chs, Due(chs, k));
    ServiceIsShaped(chs, now, k);
    hide View, Shape, Service, Phase, Due;
    if k < 4 {
      OverflowAgrees(r, chs, k, now);
    } else {
      WriteAgrees(r, chs, k, now);
    }
  }

  /** One whole cycle: the event machine serviced at `now` and the clocked machine agree. */
  lemma {:induction false} CycleAgrees(r: seq<Clocked>, chs: Bank, k: nat, now: nat)
    requires k <= SLOTS && Mirrors(r, chs, k, now) && Shaped(chs, now) && now <= HORIZON
    requires forall j :: 0 <= j < SLOTS ==> Due(chs, j) >= now
    requires forall j :: 0 <= j < k ==> Due(chs, j) > now
    ensures Mirrors(PhasesFrom(r, k, now).channels, AdvanceTo(chs, now).channels, SLOTS, now)
    ensures PhasesFrom(r, k, now).log == AdvanceTo(chs, now).log
    decreases SLOTS - k
  {
    hide Service, Phase, BestOf;
    if k == SLOTS {
      AdvanceWhenQuiet(chs, now);
    } else if Due(chs, k) == now {
      assert IsNext(chs, now, k);
      AdvanceByOne(chs, now, k);
      DuePhaseAgrees(r, chs, k, now);
      CycleAgrees(Phase(r, k, now).channels, Service(chs, k).channels, k + 1, now);
    } else {
      IdlePhaseAgrees(r, chs, k, now);
      CycleAgrees(Phase(r, k, now).channels, chs, k + 1, now);
    }
  }

  /** One cycle from a serviced state to the next. */
  lemma NextCycleAgrees(chs: Bank, now: nat)
    requires 0 < now <= HORIZON && Valid(chs, now - 1)
    ensures var run := PhasesFrom(ViewAll(chs, now - 1), 0, now);
      ViewAll(AdvanceTo(chs, now).channels, now) == run.channels && AdvanceTo(chs, now).log == run.log
  {
    hide Service, Phase, BestOf;
    var r := ViewAll(chs, now - 1);
    ShapedLater(chs, now - 1, now);
    assert Mirrors(r, chs, 0, now);
    CycleAgrees(r, chs, 0, now);
  }

  /** Advancing from a serviced state leaves a serviced state. */
  lemma AdvanceFromValid(chs: Bank, now: nat, limit: nat)
    requires Valid(chs, now) && now <= limit <= HORIZON
    ensures Valid(AdvanceTo(chs, limit).channels, limit)
  {
    hide AdvanceTo;
    assert Quiet(chs, (now as int) - 1) by {
      forall j | 0 <= j < SLOTS
        ensures Due(chs, j) > (now as int) - 1
      {
      }
    }
    AdvanceKeepsValid(chs, now, limit);
  }

  /**
   From cycle `first`, going straight to cycle `last` shows the counters and has reported the overflows,
   at their cycles, of the machine that is clocked through every cycle between.
   */
  ghost predicate Agrees(chs: Bank, first: nat, last: nat)
    requires first <= last < NEVER
  {
    var run := RunCycles(ViewAll(chs, first), first, last);
    ViewAll(AdvanceTo(chs, last).channels, last) == run.channels && AdvanceTo(chs, last).log == run.log
  }

  lemma AgreesAtOnce(chs: Bank, now: nat)
    requires Valid(chs, now) && now <= HORIZON
    ensures Agrees(chs, now, now)
  {
    AdvanceWhenQuiet(chs, now);
  }

  lemma RunOneCycleMore(chs: Bank, first: nat, last: nat)
    requires first < last <= HORIZON
    requires Agrees(chs, first, last - 1)
    requires Valid(AdvanceTo(chs, last - 1).channels, last - 1)
    ensures Agrees(chs, first, last)
  {
    hide Service, Phase, BestOf, View, Due, Shape;
    AdvanceIsIndependentOfBatching(chs, last - 1, last);
    NextCycleAgrees(AdvanceTo(chs, last - 1).channels, last);
  }

  /** The event machine refines the clocked machine, however far it jumps. */
  lemma {:induction false} EventMachineRefinesClockedMachine(chs: Bank, first: nat, last: nat)
    requires Valid(chs, first) && first <= last <= HORIZON
    ensures Agrees(chs, first, last)
    decreases last
  {
    hide *;
    if first == last {
      AgreesAtOnce(chs, first);
    } else {
      EventMachineRefinesClockedMachine(chs, first, last - 1);
      AdvanceFromValid(chs, first, last - 1);
      RunOneCycleMore(chs, first, last);
    }
  }

  // ---- the next event -----------------------------------------------------------------------------

  function EarliestOf(chs: Bank, n: nat): nat
    requires n <= 4
  {
    if n == 0 then NEVER
    else
      var ch := chs[n - 1];
      Min(Min(Min(EarliestOf(chs, n - 1), ch.nextEvent), ch.reloadAt), ch.controlAt)
  }

  /** The minimum of the cycles stored in the channels. */
  function NextEvent(chs: Bank): nat {
    EarliestOf(chs, |chs|)
  }

  lemma {:induction false} EarliestIsExact(chs: Bank, now: nat, n: nat)
    requires n <= 4 && Shaped(chs, now)
    ensures forall k :: 0 <= k < SLOTS && k % 4 < n ==> EarliestOf(chs, n) <= Due(chs, k)
    ensures EarliestOf(chs, n) == NEVER || exists k :: 0 <= k < SLOTS && Due(chs, k) == EarliestOf(chs, n)
    ensures EarliestOf(chs, n) <= NEVER
  {
    if n > 0 {
      EarliestIsExact(chs, now, n - 1);
      var ch := chs[n - 1];
      assert Shape(ch, now);
      assert Due(chs, n - 1) == ch.nextEvent;
      assert Due(chs, n + 3) == ch.reloadAt;
      assert Due(chs, n + 7) == ch.controlAt;
      hide Due;
    }
  }

  /** In a serviced state the reported next event is the earliest due cycle, and lies in the future. */
  lemma NextEventIsExact(chs: Bank, now: nat)
    requires Valid(chs, now) && now < NEVER
    ensures NextEvent(chs) > now
    ensures forall k :: 0 <= k < SLOTS ==> NextEvent(chs) <= Due(chs, k)
    ensures NextEvent(chs) == NEVER || exists k :: 0 <= k < SLOTS && Due(chs, k) == NextEvent(chs)
  {
    EarliestIsExact(chs, now, 4);
  }
}
