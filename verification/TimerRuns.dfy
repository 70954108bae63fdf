/** Whole runs of the timers: any sequence of register accesses and waits, on both machines. */
module TimerRuns {
  import opened Basics
  import opened Timers
  import opened TimerReference
  import opened TimerWrites

  /** What is read or written at once: a register (the counter, or the control register), a byte of one, or both. */
  datatype ReadPart = ReadHalf(control: bool) | ReadByte(control: bool, high: bool) | ReadWord
  datatype WritePart = WriteHalf(control: bool, value: u16) | WriteByte(control: bool, high: bool, byte: u8) | WriteWord(low: u16, upper: u16)

  /** A register access at a cycle; the bus services the timers up to that cycle first. */
  datatype Access =
    | Wait(cycle: nat)
    | Read(cycle: nat, timer: nat, source: ReadPart)
    | Write(cycle: nat, timer: nat, target: WritePart)

  /** Accesses come in time order, after `now`, and name one of the four timers. */
  predicate InOrder(ops: seq<Access>, now: nat) {
    ops != [] ==>
      && now <= ops[0].cycle <= HORIZON
      && (!ops[0].Wait? ==> ops[0].timer < 4)
      && InOrder(ops[1..], ops[0].cycle)
  }

  /** What a program and the rest of the machine can see of a run: overflows, and values read. */
  datatype Seen = Overflows(log: seq<Overflowed>) | Value(value: nat)

  // ----- Registers as a program sees them -----

  /** The register bits of a control value. */
  function EncodeControl(c: Control): nat {
    c.prescaler + Bit(c.countUp) * 4 + Bit(c.irq) * 64 + Bit(c.enable) * 128
  }

  /** A control write becomes visible when it takes effect, or one cycle before when it disables. */
  function VisibleControl(control: Control, next: Control, pending: bool, applyAt: nat, sample: nat): nat {
    var visibleAt := if control.enable && !next.enable && applyAt != NEVER then Max(applyAt - 1, 0) else applyAt;
    EncodeControl(if pending && sample >= visibleAt then next else control)
  }

  /** A word access samples the control register one cycle after the counter. */
  function ReadValue(source: ReadPart, counter: nat, control: nat, controlNext: nat): nat {
    match source
    case ReadHalf(c) => if c then control else counter
    case ReadByte(c, high) => (if c then control else counter) / (if high then 0x100 else 1) % 0x100
    case ReadWord => counter + 0x1_0000 * controlNext
  }

  /** A byte written into one half of a register value. */
  function Merged(current: nat, high: bool, byte: u8): u16 {
    if high then current % 0x100 + byte * 0x100 else current / 0x100 % 0x100 * 0x100 + byte
  }

  datatype HalfWrite = HalfWrite(control: bool, value: u16)

  /** The half-word writes that an access amounts to; a byte is merged into the pending value, if one is pending. */
  function HalfWrites(target: WritePart, reload: nat, control: nat): seq<HalfWrite> {
    match target
    case WriteHalf(c, v) => [HalfWrite(c, v)]
    case WriteByte(c, high, b) => [HalfWrite(c, Merged(if c then control else reload, high, b))]
    case WriteWord(low, upper) => [HalfWrite(false, low), HalfWrite(true, upper)]
  }

  // ----- The event-driven timers -----

  function WriteEvents(chs: Bank, now: nat, i: nat, writes: seq<HalfWrite>): Bank
    requires i < 4
    decreases |writes|
  {
    if writes == [] then chs
    else
      var w := writes[0];
      var next := if w.control then ControlWritten(chs[i], DecodeControl(i, w.value), now) else ReloadWritten(chs[i], w.value, now);
      WriteEvents(chs[i := next], now, i, writes[1..])
  }

  function PendingReload(ch: Channel): nat { if ch.reloadPending then ch.pendingReload else ch.reload }
  function PendingControl(ch: Channel): nat { EncodeControl(if ch.controlPending then ch.pendingControl else ch.control) }

  function VisibleAt(ch: Channel, sample: nat): nat {
    VisibleControl(ch.control, ch.pendingControl, ch.controlPending, ch.controlAt, sample)
  }

  function Perform(chs: Bank, op: Access): (out: (Bank, seq<Seen>))
    requires !op.Wait? ==> op.timer < 4
  {
    match op
    case Wait(_) => (chs, [])
    case Read(now, i, source) =>
      (chs, [Value(ReadValue(source, (chs[i].counter + chs[i].Ticks(now)) % 0x10000, VisibleAt(chs[i], now), VisibleAt(chs[i], now + 1)))])
    case Write(now, i, target) =>
      (WriteEvents(chs, now, i, HalfWrites(target, PendingReload(chs[i]), PendingControl(chs[i]))), [])
  }

  function RunEvents(chs: Bank, now: nat, ops: seq<Access>): seq<Seen>
    requires InOrder(ops, now)
    decreases |ops|
  {
    if ops == [] then []
    else
      var advanced := AdvanceTo(chs, ops[0].cycle);
      var (next, seen) := Perform(advanced.channels, ops[0]);
      [Overflows(advanced.log)] + seen + RunEvents(next, ops[0].cycle, ops[1..])
  }

  // ----- The per-cycle timers -----

  function WriteClocked(r: seq<Clocked>, now: nat, i: nat, writes: seq<HalfWrite>): (after: seq<Clocked>)
    requires i < |r|
    ensures |after| == |r|
    decreases |writes|
  {
    if writes == [] then r
    else
      var w := writes[0];
      var next := if w.control then ControlPending(r, i, DecodeControl(i, w.value), now) else ReloadPending(r, i, w.value, now);
      WriteClocked(next, now, i, writes[1..])
  }

  function ClockedVisibleAt(c: Clocked, sample: nat): nat {
    VisibleControl(c.control, c.pendingControl, c.controlPending, c.controlAt, sample)
  }

  function PerformClocked(r: seq<Clocked>, op: Access): (out: (seq<Clocked>, seq<Seen>))
    requires |r| == 4 && (!op.Wait? ==> op.timer < 4)
    ensures |out.0| == 4
  {
    match op
    case Wait(_) => (r, [])
    case Read(now, i, source) =>
      (r, [Value(ReadValue(source, r[i].counter, ClockedVisibleAt(r[i], now), ClockedVisibleAt(r[i], now + 1)))])
    case Write(now, i, target) =>
      var reload := if r[i].reloadPending then r[i].pendingReload else r[i].reload;
      var control := EncodeControl(if r[i].controlPending then r[i].pendingControl else r[i].control);
      (WriteClocked(r, now, i, HalfWrites(target, reload, control)), [])
  }

  function RunClocked(r: seq<Clocked>, now: nat, ops: seq<Access>): seq<Seen>
    requires |r| == 4 && InOrder(ops, now)
    decreases |ops|
  {
    if ops == [] then []
    else
      var clocked := RunCycles(r, now, ops[0].cycle);
      var (next, seen) := PerformClocked(clocked.channels, ops[0]);
      [Overflows(clocked.log)] + seen + RunClocked(next, ops[0].cycle, ops[1..])
  }

  // ----- Both see the same -----

  lemma {:induction false} WritesAgree(chs: Bank, now: nat, i: nat, writes: seq<HalfWrite>)
    requires Valid(chs, now) && now <= HORIZON && i < 4
    ensures Valid(WriteEvents(chs, now, i, writes), now)
    ensures ViewAll(WriteEvents(chs, now, i, writes), now) == WriteClocked(ViewAll(chs, now), now, i, writes)
    decreases |writes|
  {
    if writes != [] {
      var w := writes[0];
      var c := DecodeControl(i, w.value);
      var ch := if w.control then ControlWritten(chs[i], c, now) else ReloadWritten(chs[i], w.value, now);
      var next: Bank := chs[i := ch];
      hide Valid, ViewAll, DecodeControl, ReloadWritten, ControlWritten, ReloadPending, ControlPending;
      if w.control {
        ControlWriteShown(chs, now, i, c);
      } else {
        ReloadWriteShown(chs, now, i, w.value);
      }
      WritesAgree(next, now, i, writes[1..]);
    }
  }

  lemma ReadAgrees(chs: Bank, now: nat, i: nat, source: ReadPart)
    requires Valid(chs, now) && i < 4
    ensures PerformClocked(ViewAll(chs, now), Read(now, i, source)) == (ViewAll(chs, now), Perform(chs, Read(now, i, source)).1)
  {
    VisibleCounterNeverWraps(chs, now, i);
    hide Valid, ReadValue, VisibleControl;
    var seen := ViewAll(chs, now)[i];
    assert seen.counter == (chs[i].counter + chs[i].Ticks(now)) % 0x10000;
    hide ViewAll, View;
  }

  lemma AccessAgrees(chs: Bank, op: Access)
    requires Valid(chs, op.cycle) && op.cycle <= HORIZON && (!op.Wait? ==> op.timer < 4)
    ensures Valid(Perform(chs, op).0, op.cycle)
    ensures PerformClocked(ViewAll(chs, op.cycle), op) == (ViewAll(Perform(chs, op).0, op.cycle), Perform(chs, op).1)
  {
    match op
    case Wait(_) =>
      hide ViewAll, Valid;
    case Read(now, i, source) =>
      ReadAgrees(chs, now, i, source);
      hide ViewAll, Valid, PerformClocked;
    case Write(now, i, target) =>
      hide Valid, HalfWrites, WriteEvents, WriteClocked, EncodeControl;
      WritesAgree(chs, now, i, HalfWrites(target, PendingReload(chs[i]), PendingControl(chs[i])));
  }

  /**
   Any program sees the same values, and the machine the same overflows at the same cycles, whether
   the timers are serviced only at register accesses or clocked every cycle.
   */
  lemma {:induction false} RunsAgree(chs: Bank, now: nat, ops: seq<Access>)
    requires Valid(chs, now) && now <= HORIZON && InOrder(ops, now)
    ensures RunEvents(chs, now, ops) == RunClocked(ViewAll(chs, now), now, ops)
    decreases ops
  {
    if ops != [] {
      hide AdvanceTo, RunCycles, Perform, PerformClocked, Valid, ViewAll;
      var at := ops[0].cycle;
      EventMachineRefinesClockedMachine(chs, now, at);
      AdvanceFromValid(chs, now, at);
      AccessAgrees(AdvanceTo(chs, at).channels, ops[0]);
      RunsAgree(Perform(AdvanceTo(chs, at).channels, ops[0]).0, at, ops[1..]);
    }
  }

  /** In particular from reset. */
  lemma RunsFromResetAgree(ops: seq<Access>)
    requires InOrder(ops, 0)
    ensures var reset := seq(4, _ => ResetChannel());
      RunEvents(reset, 0, ops) == RunClocked(ViewAll(reset, 0), 0, ops)
  {
    RunsAgree(seq(4, _ => ResetChannel()), 0, ops);
  }
}
