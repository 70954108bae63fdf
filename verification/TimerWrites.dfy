/** Register writes between services: what they do to the timers and to the counters a program sees. */
module TimerWrites {
  import opened Basics
  import opened Timers
  import opened TimerReference

  /** A new control value takes effect one cycle later, or two when it stops a running timer. */
  function ControlWritten(ch: Channel, control: Control, now: nat): Channel {
    ch.(pendingControl := control, controlPending := true,
        controlAt := now + (if !control.enable && ch.control.enable && ch.running then 2 else 1))
  }

  /** A new reload value takes effect one cycle later. */
  function ReloadWritten(ch: Channel, value: u16, now: nat): Channel {
    ch.(pendingReload := value, reloadPending := true, reloadAt := now + 1)
  }

  /** The per-cycle timers after a write to the reload register: only what is pending has changed. */
  function ReloadPending(r: seq<Clocked>, i: nat, value: u16, now: nat): (after: seq<Clocked>)
    requires i < |r|
    ensures |after| == |r|
  {
    r[i := r[i].(pendingReload := value, reloadPending := true, reloadAt := now + 1)]
  }

  /** The same for the control register. */
  function ControlPending(r: seq<Clocked>, i: nat, control: Control, now: nat): (after: seq<Clocked>)
    requires i < |r|
    ensures |after| == |r|
  {
    r[i := r[i].(pendingControl := control, controlPending := true,
                 controlAt := now + (if !control.enable && r[i].Counting() then 2 else 1))]
  }

  /** Between services the visible counter never wraps, so reading it truncates nothing. */
  lemma VisibleCounterNeverWraps(chs: Bank, now: nat, i: nat)
    requires Valid(chs, now) && i < 4
    ensures chs[i].counter + chs[i].Ticks(now) <= 0xFFFF
  {
    assert Shape(chs[i], now) && Due(chs, i) > now;
    if chs[i].Counting() && now > chs[i].started {
      WrapsExactlyAtNextEvent(chs[i].counter, chs[i].period, now - chs[i].started);
    }
  }

  /** A register write that takes effect later changes nothing else and leaves the timers serviced. */
  lemma WriteLandsLater(chs: Bank, now: nat, i: nat, ch: Channel)
    requires Valid(chs, now) && i < 4 && Shape(ch, now) && ch.nextEvent == chs[i].nextEvent && ch.running == chs[i].running
    requires ch.control == chs[i].control && ch.reloadAt > now && ch.controlAt > now
    ensures Valid(chs[i := ch], now)
    ensures ViewAll(chs[i := ch], now) == ViewAll(chs, now)[i := View(ch, now)]
  {
    hide View;
    assert ShapedFrom(chs, 0, now);
    var next: Bank := chs[i := ch];
    forall k | 0 <= k < SLOTS
      ensures Due(next, k) > now
    {
      assert Due(chs, k) > now;
    }
  }

  lemma ReloadWriteShown(chs: Bank, now: nat, i: nat, v: u16)
    requires Valid(chs, now) && now <= HORIZON && i < 4
    ensures var ch := ReloadWritten(chs[i], v, now);
      Valid(chs[i := ch], now) && ViewAll(chs[i := ch], now) == ReloadPending(ViewAll(chs, now), i, v, now)
  {
    assert Shape(chs[i], now) && Due(chs, 8 + i) > now;
    var ch := ReloadWritten(chs[i], v, now);
    assert View(ch, now) == View(chs[i], now).(pendingReload := v, reloadPending := true, reloadAt := now + 1);
    assert ViewAll(chs, now)[i] == View(chs[i], now);
    hide View, ViewAll, Valid, Due;
    WriteLandsLater(chs, now, i, ch);
  }

  lemma ControlWriteShown(chs: Bank, now: nat, i: nat, c: Control)
    requires Valid(chs, now) && now <= HORIZON && i < 4
    ensures var ch := ControlWritten(chs[i], c, now);
      Valid(chs[i := ch], now) && ViewAll(chs[i := ch], now) == ControlPending(ViewAll(chs, now), i, c, now)
  {
    assert Shape(chs[i], now) && Due(chs, 4 + i) > now;
    var ch := ControlWritten(chs[i], c, now);
    assert View(chs[i], now).Counting() == chs[i].running;
    assert View(ch, now) == View(chs[i], now).(pendingControl := c, controlPending := true, controlAt := ch.controlAt);
    assert ViewAll(chs, now)[i] == View(chs[i], now);
    hide View, ViewAll, Valid, Due;
    WriteLandsLater(chs, now, i, ch);
  }
}
