/**
 The interrupt controller (src/core/irq.cpp). A 16-bit mask register is the set of its one bits.
 */
module Irq {
  import opened Basics

  type Mask = set<nat>

  const VBLANK: Mask := {0}
  const HBLANK: Mask := {1}
  const VCOUNT: Mask := {2}
  const SERIAL: Mask := {7}

  function TimerMask(index: nat): Mask { {3 + index} }
  function DmaMask(index: nat): Mask { {8 + index} }

  /** Everything the controller holds: IE, IF, IME, the CPU line, and the delay pipeline. */
  datatype IrqState = IrqState(ie: Mask, iflags: Mask, ime: bool, line: bool, delayed: Mask, fireCycle: nat)

  function Recompute(s: IrqState): IrqState {
    s.(line := s.ime && s.ie * s.iflags != {})
  }

  function Request(s: IrqState, mask: Mask): IrqState {
    Recompute(s.(iflags := s.iflags + mask))
  }

  function Acknowledge(s: IrqState, mask: Mask): IrqState {
    Recompute(s.(iflags := s.iflags - mask))
  }

  function RaiseDelayed(s: IrqState, mask: Mask, when: nat, delay: nat): IrqState {
    var unseen := mask - (s.iflags + s.delayed);
    if unseen == {} then s
    else s.(delayed := s.delayed + unseen,
            fireCycle := if s.delayed == {} then when + delay else Min(s.fireCycle, when + delay))
  }

  function Advance(s: IrqState, now: nat): IrqState {
    if s.delayed != {} && now >= s.fireCycle then
      Recompute(s.(iflags := s.iflags + s.delayed, delayed := {}, fireCycle := 0))
    else s
  }

  function NextEvent(s: IrqState): nat {
    if s.delayed != {} then s.fireCycle else NEVER
  }

  /** The line to the CPU is what the registers say. */
  predicate LineExact(s: IrqState) {
    s.line <==> s.ime && s.ie * s.iflags != {}
  }

  /** Interrupts the machine knows about: flagged, or on their way. */
  function Known(s: IrqState): Mask { s.iflags + s.delayed }

  /**
   No interrupt is lost or invented in the delay pipeline: raising adds exactly the mask to what is
   known, time moves it from the pipeline to IF, and only an acknowledge takes it away.
   */
  lemma PipelineConserves(s: IrqState, mask: Mask, when: nat, delay: nat, now: nat)
    ensures Known(RaiseDelayed(s, mask, when, delay)) == Known(s) + mask
    ensures Known(Advance(s, now)) == Known(s)
    ensures Known(Request(s, mask)) == Known(s) + mask
    ensures LineExact(s) ==> LineExact(RaiseDelayed(s, mask, when, delay)) && LineExact(Advance(s, now))
    ensures LineExact(Request(s, mask)) && LineExact(Acknowledge(s, mask))
  {
    var unseen := mask - (s.iflags + s.delayed);
    assert s.iflags + (s.delayed + unseen) == Known(s) + mask;
    assert unseen == {} ==> Known(s) == Known(s) + mask;
    assert s.iflags + mask + s.delayed == Known(s) + mask;
  }

  /** An interrupt that was not yet known reaches IF, with all that wait, no later than its delay says. */
  lemma RaisedArrivesInTime(s: IrqState, mask: Mask, when: nat, delay: nat, now: nat)
    requires !(mask <= Known(s)) && now >= when + delay
    ensures var s' := Advance(RaiseDelayed(s, mask, when, delay), now);
      Known(s) + mask <= s'.iflags && s'.delayed == {}
  {
    assert mask - (s.iflags + s.delayed) != {} by {
      var bit :| bit in mask && bit !in Known(s);
      assert bit in mask - (s.iflags + s.delayed);
    }
  }

  /** After advancing, the pipeline holds nothing that is due. */
  lemma AdvanceClearsDue(s: IrqState, now: nat)
    requires now < NEVER
    ensures NextEvent(Advance(s, now)) > now
    ensures Advance(Advance(s, now), now) == Advance(s, now)
  {
  }

  lemma IntersectsIff(a: Mask, b: Mask)
    ensures a * b != {} <==> exists bit :: bit in a && bit in b
  {
    if a * b != {} {
      var bit :| bit in a * b;
    }
    if bit :| bit in a && bit in b {
      assert bit in a * b;
    }
  }

  // ----- Register writes -----

  const IE: nat := 0x400_0200
  const IF: nat := 0x400_0202
  const IME: nat := 0x400_0208

  datatype Width = Byte | Half | Word

  /** The half-word register at this address; there is nothing elsewhere. */
  function ReadHalf(s: IrqState, address: nat): Mask {
    if address == IE then s.ie
    else if address == IF then s.iflags
    else if address == IME then (if s.ime then {0} else {})
    else {}
  }

  /** write_half: IE takes fourteen bits, IF loses every flag that is written as one, IME takes bit 0. */
  function HalfWritten(s: IrqState, address: nat, value: Mask): IrqState {
    if address == IE then s.(ie := set bit | bit in value && bit < 14)
    else if address == IF then s.(iflags := s.iflags - value)
    else if address == IME then s.(ime := 0 in value)
    else s
  }

  /** The bits of the byte at this address, within its half-word. */
  predicate InByte(address: nat, bit: nat) { address % 2 * 8 <= bit < address % 2 * 8 + 8 }

  function LowHalf(value: Mask): Mask { set bit | bit in value && bit < 16 }
  function HighHalf(value: Mask): Mask { set bit | bit in value && 16 <= bit < 32 :: bit - 16 }

  /** The byte `value` in its place within the half-word. */
  function Shifted(address: nat, value: Mask): Mask { set bit | bit in value && bit < 8 :: bit + address % 2 * 8 }

  /** The half-word that is there, with one byte of it replaced. */
  function Merged(existing: Mask, address: nat, value: Mask): Mask {
    (set bit | bit in existing && !InByte(address, bit)) + Shifted(address, value)
  }

  /** write_register: a byte is merged with the register as it reads, and then written as a half-word. */
  function Written(s: IrqState, address: nat, value: Mask, width: Width): IrqState {
    Recompute(
      match width
      case Byte => HalfWritten(s, address / 2 * 2, Merged(ReadHalf(s, address / 2 * 2), address, value))
      case Half => HalfWritten(s, address, LowHalf(value))
      case Word => HalfWritten(HalfWritten(s, address, LowHalf(value)), address + 2, HighHalf(value)))
  }

  /** The interrupts that a write to IF names: those whose bits are written as ones. */
  function Named(address: nat, value: Mask, width: Width): Mask {
    match width
    case Byte => if address / 2 * 2 == IF then Shifted(address, value) else {}
    case Half => if address == IF then LowHalf(value) else {}
    case Word => if address == IE then HighHalf(value) else if address == IF then LowHalf(value) else {}
  }

  /** A half-word or word write acknowledges what it names and nothing else; one to IE or IME touches no interrupt. */
  lemma WideWriteIsExact(s: IrqState, address: nat, value: Mask, width: Width)
    requires width != Byte
    ensures var after := Written(s, address, value, width);
      after.iflags == s.iflags - Named(address, value, width) && after.delayed == s.delayed && LineExact(after)
  {
  }

  /**
   A byte write to either half of IF: of its own byte, the flags it names go; of the other byte, all do, because
   they read as ones and are written back.
   */
  lemma ByteWriteClears(s: IrqState, address: nat, value: Mask)
    requires address / 2 * 2 == IF
    ensures var after := Written(s, address, value, Byte);
      && (forall bit :: bit in after.iflags <==> bit in s.iflags && InByte(address, bit) && bit !in Named(address, value, Byte))
      && after.delayed == s.delayed && LineExact(after)
  {
  }

  /** So it acknowledges what it names and nothing else exactly if no interrupt of the other byte is flagged. */
  lemma ByteWriteIsExactIff(s: IrqState, address: nat, value: Mask)
    requires address / 2 * 2 == IF
    ensures Written(s, address, value, Byte).iflags == s.iflags - Named(address, value, Byte)
       <==> forall bit :: bit in s.iflags ==> InByte(address, bit)
  {
    ByteWriteClears(s, address, value);
    assert forall bit :: bit in Named(address, value, Byte) ==> InByte(address, bit);
    var after := Written(s, address, value, Byte).iflags;
    if forall bit :: bit in s.iflags ==> InByte(address, bit) {
      assert forall bit :: bit in after <==> bit in s.iflags - Named(address, value, Byte);
    } else {
      var bit :| bit in s.iflags && !InByte(address, bit);
      assert bit !in after && bit in s.iflags - Named(address, value, Byte);
    }
  }

  /** Vertical blanking acknowledged with a byte: the end of DMA 0 is lost with it. */
  lemma ByteWriteLosesDma()
    ensures var s := IrqState(VBLANK + DmaMask(0), VBLANK + DmaMask(0), true, true, {}, 0);
      var after := Written(s, IF, VBLANK, Byte);
      && LineExact(s) && DmaMask(0) !! Named(IF, VBLANK, Byte)
      && Known(after) == {} && !after.line
  {
    var s := IrqState(VBLANK + DmaMask(0), VBLANK + DmaMask(0), true, true, {}, 0);
    assert 0 in s.ie * s.iflags;
    ByteWriteClears(s, IF, VBLANK);
    assert 0 + IF % 2 * 8 in Named(IF, VBLANK, Byte);
  }

  /** A write to IE lets through to the line what is now enabled and flagged, and touches no interrupt. */
  lemma EnableWritten(s: IrqState, value: Mask)
    ensures var after := Written(s, IE, value, Half);
      && (after.line <==> s.ime && exists bit :: bit in value && bit < 14 && bit in s.iflags)
      && Known(after) == Known(s)
  {
    var after := Written(s, IE, value, Half);
    IntersectsIff(after.ie, s.iflags);
    assert forall bit :: bit in after.ie <==> bit in value && bit < 14;
  }

  /** A byte write to IE replaces the enables of its own byte only. */
  lemma EnableByteWritten(s: IrqState, value: Mask)
    ensures var after := Written(s, IE, value, Byte);
      && (forall bit :: bit in after.ie <==> bit < 14 && (if bit < 8 then bit in value else bit in s.ie))
      && Known(after) == Known(s)
  {
    hide Shifted, HalfWritten;
    EvenByte(IE, value);
    var merged := Merged(s.ie, IE, value);
    assert forall bit :: bit in merged <==> if bit < 8 then bit in value else bit in s.ie;
    HalfToIe(s, merged);
    assert Written(s, IE, value, Byte) == Recompute(HalfWritten(s, IE, merged));
  }

  lemma HalfToIe(s: IrqState, value: Mask)
    ensures var after := HalfWritten(s, IE, value);
      (forall bit :: bit in after.ie <==> bit in value && bit < 14) && Known(after) == Known(s)
  {
  }

  lemma EvenByte(address: nat, value: Mask)
    requires address % 2 == 0
    ensures forall bit :: bit in Shifted(address, value) <==> bit in value && bit < 8
  {
    assert forall bit | bit in value && bit < 8 :: bit == bit + address % 2 * 8;
  }

  /** A write to IME lets the enabled flags through, or holds them all back. */
  lemma MasterWritten(s: IrqState, value: Mask)
    ensures var after := Written(s, IME, value, Half);
      && (after.line <==> 0 in value && exists bit :: bit in s.ie && bit in s.iflags)
      && Known(after) == Known(s)
  {
    IntersectsIff(s.ie, s.iflags);
  }

  // ----- Whole runs -----

  /** Anything that reaches the controller; `Acknowledged` is the direct call, not a register write. */
  datatype IrqEvent =
    | Delayed(mask: Mask, when: nat, delay: nat)
    | Requested(mask: Mask)
    | Acknowledged(mask: Mask)
    | Wrote(address: nat, value: Mask, width: Width)
    | Passed(now: nat)

  function After(s: IrqState, e: IrqEvent): IrqState {
    match e
    case Delayed(mask, when, delay) => RaiseDelayed(s, mask, when, delay)
    case Requested(mask) => Request(s, mask)
    case Acknowledged(mask) => Acknowledge(s, mask)
    case Wrote(address, value, width) => Written(s, address, value, width)
    case Passed(now) => Advance(s, now)
  }

  function Run(s: IrqState, events: seq<IrqEvent>): IrqState
    decreases |events|
  {
    if events == [] then s else Run(After(s, events[0]), events[1..])
  }

  predicate Asks(e: IrqEvent, bit: nat) { (e.Delayed? || e.Requested?) && bit in e.mask }

  /** Acknowledges the interrupt by name, or by a byte write to the other byte of IF. */
  predicate Clears(e: IrqEvent, bit: nat) {
    || (e.Acknowledged? && bit in e.mask)
    || (e.Wrote? && bit in Named(e.address, e.value, e.width))
    || (e.Wrote? && e.width == Byte && e.address / 2 * 2 == IF && !InByte(e.address, bit))
  }

  lemma ByteElsewhere(s: IrqState, address: nat, value: Mask)
    requires address / 2 * 2 != IF
    ensures var after := Written(s, address, value, Byte); after.iflags == s.iflags && after.delayed == s.delayed && LineExact(after)
  {
  }

  /** What a write does to the flags, whatever its width. */
  lemma WriteEffect(s: IrqState, address: nat, value: Mask, width: Width)
    ensures var after := Written(s, address, value, width);
      && after.delayed == s.delayed && LineExact(after)
      && (width != Byte ==> after.iflags == s.iflags - Named(address, value, width))
      && (width == Byte && address / 2 * 2 == IF ==>
            forall bit :: bit in after.iflags <==> bit in s.iflags && InByte(address, bit) && bit !in Named(address, value, width))
      && (width == Byte && address / 2 * 2 != IF ==> after.iflags == s.iflags)
  {
    hide Written, Named;
    if width != Byte {
      WideWriteIsExact(s, address, value, width);
    } else if address / 2 * 2 == IF {
      ByteWriteClears(s, address, value);
    } else {
      ByteElsewhere(s, address, value);
    }
  }

  lemma WriteKeeps(s: IrqState, address: nat, value: Mask, width: Width, bit: nat)
    requires !Clears(Wrote(address, value, width), bit)
    ensures bit in Known(Written(s, address, value, width)) <==> bit in Known(s)
    ensures LineExact(Written(s, address, value, width))
  {
    hide Written, Named;
    WriteEffect(s, address, value, width);
  }

  /**
   Until a program acknowledges an interrupt, or writes a byte of IF that is not the interrupt's own, it is known
   exactly when it was known before or has been asked for since, whatever else happens; and the line follows
   the registers throughout.
   */
  lemma {:induction false} RunConserves(s: IrqState, events: seq<IrqEvent>, bit: nat)
    requires LineExact(s) && forall e :: e in events ==> !Clears(e, bit)
    ensures LineExact(Run(s, events))
    ensures bit in Known(Run(s, events)) <==> bit in Known(s) || exists e :: e in events && Asks(e, bit)
    decreases |events|
  {
    hide Written, Clears, Acknowledge, Advance, Request, RaiseDelayed;
    if events != [] {
      var e := events[0];
      assert e in events;
      StepConserves(s, e, bit);
      RunConserves(After(s, e), events[1..], bit);
      assert forall f :: f in events <==> f == e || f in events[1..];
    }
  }

  lemma StepConserves(s: IrqState, e: IrqEvent, bit: nat)
    requires LineExact(s) && !Clears(e, bit)
    ensures LineExact(After(s, e)) && (bit in Known(After(s, e)) <==> bit in Known(s) || Asks(e, bit))
  {
    hide Written, Advance, Request, RaiseDelayed;
    match e {
      case Delayed(mask, when, delay) => PipelineConserves(s, mask, when, delay, 0);
      case Requested(mask) => PipelineConserves(s, mask, 0, 0, 0);
      case Passed(now) => PipelineConserves(s, {}, 0, 0, now);
      case Wrote(address, value, width) => WriteKeeps(s, address, value, width, bit);
      case Acknowledged(mask) =>
    }
  }

  class IrqController {
    var ie: Mask
    var iflags: Mask
    var ime: bool
    var line: bool
    var delayed: Mask
    var fireCycle: nat

    function State(): IrqState
      reads this
    {
      IrqState(ie, iflags, ime, line, delayed, fireCycle)
    }

    constructor ()
      ensures State() == IrqState({}, {}, false, false, {}, 0)
    {
      ie, iflags, ime, line, delayed, fireCycle := {}, {}, false, false, {}, 0;
    }

    method RecomputeLine()
      modifies this`line
      ensures State() == Recompute(old(State()))
    {
      line := ime && ie * iflags != {};
    }

    method WriteHalf(address: nat, value: Mask)
      modifies this`ie, this`iflags, this`ime
      ensures State() == HalfWritten(old(State()), address, value)
    {
      if address == IE {
        ie := set bit | bit in value && bit < 14;
      } else if address == IF {
        iflags := iflags - value;
      } else if address == IME {
        ime := 0 in value;
      }
    }

    /** write_register; `value` holds the bits on the bus. */
    method WriteRegister(address: nat, value: Mask, width: Width)
      modifies this`ie, this`iflags, this`ime, this`line
      ensures State() == Written(old(State()), address, value, width) && LineExact(State())
      ensures width != Byte ==> iflags == old(iflags) - Named(address, value, width)
      ensures width == Byte && address / 2 * 2 == IF ==>
        forall bit :: bit in iflags <==> bit in old(iflags) && InByte(address, bit) && bit !in Named(address, value, width)
      ensures width == Byte && address / 2 * 2 != IF ==> iflags == old(iflags)
    {
      WriteEffect(State(), address, value, width);
      hide Merged, LowHalf, HighHalf, Named;
      if width == Byte {
        var aligned := address / 2 * 2;
        var existing := ReadHalf(State(), aligned);
        WriteHalf(aligned, Merged(existing, address, value));
      } else if width == Half {
        WriteHalf(address, LowHalf(value));
      } else {
        WriteHalf(address, LowHalf(value));
        WriteHalf(address + 2, HighHalf(value));
      }
      RecomputeLine();
    }

    method AcknowledgeNow(mask: Mask)
      modifies this
      ensures State() == Acknowledge(old(State()), mask)
    {
      iflags := iflags - mask;
      RecomputeLine();
    }

    method RequestNow(mask: Mask)
      modifies this
      ensures State() == Request(old(State()), mask)
    {
      iflags := iflags + mask;
      RecomputeLine();
    }

    method Raise(mask: Mask, when: nat, delay: nat)
      modifies this
      ensures State() == RaiseDelayed(old(State()), mask, when, delay)
    {
      var unseen := mask - (iflags + delayed);
      if unseen == {} {
        return;
      }
      var fire := when + delay;
      fireCycle := if delayed == {} then fire else Min(fireCycle, fire);
      delayed := delayed + unseen;
    }

    method AdvanceTo(now: nat)
      modifies this
      ensures State() == Advance(old(State()), now)
    {
      if delayed != {} && now >= fireCycle {
        iflags := iflags + delayed;
        delayed := {};
        fireCycle := 0;
        RecomputeLine();
      }
    }
  }
}
