/**
 Register banking and exceptions of the ARM7TDMI (src/core/cpu.cpp switch_mode, enter_exception and the
 S-bit return), after sections A2.4 and A2.6 of the ARM Architecture Reference Manual (ARM DDI 0100).
 */
module CpuBanks {
  import opened Basics

  datatype Mode = User | Fiq | Irq | Supervisor | Abort | Undefined | System

  /** A program status register; `upper` holds bits 8-31, the condition flags among them. */
  datatype Psr = Psr(upper: nat, irqOff: bool, fiqOff: bool, thumb: bool, mode: Mode)

  /** regs holds r0-r14 as the current mode sees them; banked holds r13 and r14 of five banks. */
  datatype CpuState = CpuState(
    regs: seq<u32>, pc: u32, cpsr: Psr,
    usrHigh: seq<u32>, fiqHigh: seq<u32>, banked: seq<(u32, u32)>,
    spsrSvc: Psr, spsrIrq: Psr, spsrAbt: Psr, spsrUnd: Psr, spsrFiq: Psr)

  /** The array sizes. */
  ghost predicate Sized(s: CpuState) {
    |s.regs| == 15 && |s.usrHigh| == 5 && |s.fiqHigh| == 7 && |s.banked| == 5
  }

  /** r13_r14_bank_index; FIQ keeps its r13 and r14 elsewhere. */
  function BankIndex(mode: Mode): (index: nat)
    ensures index < 5
  {
    match mode
    case User => 0
    case System => 0
    case Supervisor => 1
    case Irq => 2
    case Abort => 3
    case Undefined => 4
    case Fiq => 0
  }

  /** spsr_for_mode; User and System, which have none, are given the Supervisor's. */
  function Spsr(s: CpuState, mode: Mode): Psr {
    match mode
    case Supervisor => s.spsrSvc
    case Irq => s.spsrIrq
    case Abort => s.spsrAbt
    case Undefined => s.spsrUnd
    case Fiq => s.spsrFiq
    case User => s.spsrSvc
    case System => s.spsrSvc
  }

  function SetSpsr(s: CpuState, mode: Mode, value: Psr): CpuState {
    match mode
    case Supervisor => s.(spsrSvc := value)
    case Irq => s.(spsrIrq := value)
    case Abort => s.(spsrAbt := value)
    case Undefined => s.(spsrUnd := value)
    case Fiq => s.(spsrFiq := value)
    case User => s.(spsrSvc := value)
    case System => s.(spsrSvc := value)
  }

  /** The visible registers go back to their bank. */
  function SaveBank(s: CpuState): (r: CpuState)
    requires Sized(s)
    ensures Sized(r)
  {
    if s.cpsr.mode == Fiq then s.(fiqHigh := s.regs[8..15])
    else s.(usrHigh := s.regs[8..13], banked := s.banked[BankIndex(s.cpsr.mode) := (s.regs[13], s.regs[14])])
  }

  /** The current mode's registers become visible. */
  function LoadBank(s: CpuState): (r: CpuState)
    requires Sized(s)
    ensures Sized(r)
  {
    if s.cpsr.mode == Fiq then s.(regs := s.regs[..8] + s.fiqHigh)
    else
      var bank := s.banked[BankIndex(s.cpsr.mode)];
      s.(regs := s.regs[..8] + s.usrHigh + [bank.0, bank.1])
  }

  function SwitchMode(s: CpuState, mode: Mode): (r: CpuState)
    requires Sized(s)
    ensures Sized(r) && r.cpsr == s.cpsr.(mode := mode) && r.pc == s.pc
  {
    if s.cpsr.mode == mode then s
    else
      var saved := SaveBank(s);
      LoadBank(saved.(cpsr := s.cpsr.(mode := mode)))
  }

  // ----- The physical register file -----

  /** The 31 general registers of A2.4: r0-r7 are shared, the rest belong to a bank. */
  datatype Register = Low(r: nat) | UserHigh(r: nat) | FiqHigh(r: nat) | Stack(bank: nat) | Link(bank: nat)

  /** The physical register that `mode` calls r. */
  function Physical(mode: Mode, r: nat): Register
    requires r < 15
  {
    if r < 8 then Low(r)
    else if mode == Fiq then FiqHigh(r - 8)
    else if r < 13 then UserHigh(r - 8)
    else if r == 13 then Stack(BankIndex(mode)) else Link(BankIndex(mode))
  }

  ghost predicate IsRegister(p: Register) {
    match p
    case Low(r) => r < 8
    case UserHigh(r) => r < 5
    case FiqHigh(r) => r < 7
    case Stack(b) => b < 5
    case Link(b) => b < 5
  }

  /** The contents of a physical register, wherever the state keeps it. */
  function Value(s: CpuState, p: Register): u32
    requires Sized(s) && IsRegister(p)
  {
    var fiq := s.cpsr.mode == Fiq;
    match p
    case Low(r) => s.regs[r]
    case UserHigh(r) => if fiq then s.usrHigh[r] else s.regs[8 + r]
    case FiqHigh(r) => if fiq then s.regs[8 + r] else s.fiqHigh[r]
    case Stack(b) => if !fiq && BankIndex(s.cpsr.mode) == b then s.regs[13] else s.banked[b].0
    case Link(b) => if !fiq && BankIndex(s.cpsr.mode) == b then s.regs[14] else s.banked[b].1
  }

  /** What the current mode sees in r is the physical register of that name. */
  lemma SeesOwnBank(s: CpuState, r: nat)
    requires Sized(s) && r < 15
    ensures IsRegister(Physical(s.cpsr.mode, r)) && s.regs[r] == Value(s, Physical(s.cpsr.mode, r))
  {
  }

  /** Switching modes moves registers about but changes no physical register. */
  lemma SwitchKeepsValues(s: CpuState, mode: Mode, p: Register)
    requires Sized(s) && IsRegister(p)
    ensures Value(SwitchMode(s, mode), p) == Value(s, p)
  {
  }

  function WriteRegister(s: CpuState, r: nat, value: u32): (t: CpuState)
    requires Sized(s) && r < 15
    ensures Sized(t)
  {
    s.(regs := s.regs[r := value])
  }

  /** A write changes exactly the physical register that the mode calls r. */
  lemma WriteChangesOne(s: CpuState, r: nat, value: u32, p: Register)
    requires Sized(s) && r < 15 && IsRegister(p)
    ensures Value(WriteRegister(s, r, value), p) == if p == Physical(s.cpsr.mode, r) then value else Value(s, p)
  {
  }

  // ----- Runs of mode switches and register writes -----

  datatype Action = Switch(mode: Mode) | Write(r: nat, value: u32)

  ghost predicate WellFormed(actions: seq<Action>) {
    forall a | a in actions :: a.Write? ==> a.r < 15
  }

  function RunActions(s: CpuState, actions: seq<Action>): (t: CpuState)
    requires Sized(s) && WellFormed(actions)
    ensures Sized(t)
  {
    if actions == [] then s
    else
      var before := RunActions(s, actions[..|actions| - 1]);
      match actions[|actions| - 1]
      case Switch(mode) => SwitchMode(before, mode)
      case Write(r, value) => WriteRegister(before, r, value)
  }

  /** The mode after the actions. */
  function ModeAfter(start: Mode, actions: seq<Action>): Mode {
    if actions == [] then start
    else if actions[|actions| - 1].Switch? then actions[|actions| - 1].mode
    else ModeAfter(start, actions[..|actions| - 1])
  }

  /** The last value written to a physical register, by whichever mode it belongs to. */
  function LastWritten(start: Mode, actions: seq<Action>, p: Register, initial: u32): u32
    requires WellFormed(actions)
  {
    if actions == [] then initial
    else
      var earlier := actions[..|actions| - 1];
      var last := actions[|actions| - 1];
      if last.Write? && Physical(ModeAfter(start, earlier), last.r) == p then last.value
      else LastWritten(start, earlier, p, initial)
  }

  /** Over any run, a physical register holds what was last written to it. */
  lemma {:induction false} RunKeepsPhysicalFile(s: CpuState, actions: seq<Action>, p: Register)
    requires Sized(s) && WellFormed(actions) && IsRegister(p)
    ensures RunActions(s, actions).cpsr == s.cpsr.(mode := ModeAfter(s.cpsr.mode, actions))
    ensures Value(RunActions(s, actions), p) == LastWritten(s.cpsr.mode, actions, p, Value(s, p))
  {
    hide Value, SwitchMode, Physical, IsRegister;
    if actions != [] {
      var earlier, last := actions[..|actions| - 1], actions[|actions| - 1];
      RunKeepsPhysicalFile(s, earlier, p);
      match last {
        case Switch(mode) => SwitchKeepsValues(RunActions(s, earlier), mode, p);
        case Write(r, value) => WriteChangesOne(RunActions(s, earlier), r, value, p);
      }
    }
  }

  /** So whatever the run did, each mode sees in each register the last write to its own bank. */
  lemma EachModeSeesItsOwnWrites(s: CpuState, actions: seq<Action>, mode: Mode, r: nat)
    requires Sized(s) && WellFormed(actions) && r < 15
    ensures IsRegister(Physical(mode, r))
    ensures SwitchMode(RunActions(s, actions), mode).regs[r]
         == LastWritten(s.cpsr.mode, actions, Physical(mode, r), Value(s, Physical(mode, r)))
  {
    hide Value, LastWritten, RunActions;
    var after := RunActions(s, actions);
    SeesOwnBank(SwitchMode(after, mode), r);
    SwitchKeepsValues(after, mode, Physical(mode, r));
    RunKeepsPhysicalFile(s, actions, Physical(mode, r));
  }

  // ----- Exceptions -----

  datatype Exception = Reset | UndefinedInstruction | SoftwareInterrupt | PrefetchAbort | DataAbort | Interrupt | FastInterrupt

  function Target(e: Exception): Mode {
    match e
    case Reset => Supervisor
    case UndefinedInstruction => Undefined
    case SoftwareInterrupt => Supervisor
    case PrefetchAbort => Abort
    case DataAbort => Abort
    case Interrupt => Irq
    case FastInterrupt => Fiq
  }

  function Vector(e: Exception): u32 {
    match e
    case Reset => 0x00
    case UndefinedInstruction => 0x04
    case SoftwareInterrupt => 0x08
    case PrefetchAbort => 0x0C
    case DataAbort => 0x10
    case Interrupt => 0x18
    case FastInterrupt => 0x1C
  }

  predicate MasksFiq(e: Exception) { e == Reset || e == FastInterrupt }

  /** What raise_exception puts in r14. */
  function ReturnAddress(s: CpuState, e: Exception): u32 {
    match e
    case Reset => 0
    case UndefinedInstruction => (s.pc + (if s.cpsr.thumb then 2 else 4)) % WORD_RANGE
    case SoftwareInterrupt => s.pc
    case PrefetchAbort => (s.pc + 4) % WORD_RANGE
    case DataAbort => (s.pc + 8) % WORD_RANGE
    case Interrupt => (s.pc + 4) % WORD_RANGE
    case FastInterrupt => (s.pc + 4) % WORD_RANGE
  }

  /** How far below r14 the return of A2.6 goes: MOVS pc, r14 or SUBS pc, r14, #4 or #8. */
  function Back(e: Exception): nat {
    match e
    case Reset => 0
    case UndefinedInstruction => 0
    case SoftwareInterrupt => 0
    case PrefetchAbort => 4
    case DataAbort => 8
    case Interrupt => 4
    case FastInterrupt => 4
  }

  function AlignFor(address: u32, thumb: bool): u32 { if thumb then address / 2 * 2 else address / 4 * 4 }

  function BranchTo(s: CpuState, address: u32, thumb: bool): (t: CpuState)
    requires Sized(s)
    ensures Sized(t)
  {
    s.(pc := AlignFor(address, thumb), cpsr := s.cpsr.(thumb := thumb))
  }

  /** enter_exception, as raise_exception calls it. */
  function Enter(s: CpuState, e: Exception): (t: CpuState)
    requires Sized(s)
    ensures Sized(t) && t.cpsr.mode == Target(e)
  {
    var entered := SetSpsr(SwitchMode(s, Target(e)), Target(e), s.cpsr);
    BranchTo(entered.(regs := entered.regs[14 := ReturnAddress(s, e)],
                      cpsr := entered.cpsr.(thumb := false, irqOff := true, fiqOff := MasksFiq(e))),
             Vector(e), false)
  }

  /** A data-processing instruction with the S bit and pc as destination; User mode has no status to restore. */
  function ReturnTo(s: CpuState, address: u32): (t: CpuState)
    requires Sized(s)
    ensures Sized(t)
  {
    if s.cpsr.mode == User then BranchTo(s, AlignFor(address, false), false)
    else
      var saved := Spsr(s, s.cpsr.mode);
      var switched := if saved.mode != s.cpsr.mode then SwitchMode(s, saved.mode) else s;
      BranchTo(switched.(cpsr := saved), address, saved.thumb)
  }

  /** The return that matches an exception. */
  function Return(s: CpuState, e: Exception): (t: CpuState)
    requires Sized(s)
    ensures Sized(t)
  {
    ReturnTo(s, (s.regs[14] - Back(e)) % WORD_RANGE)
  }

  /** Where the matching return lands. */
  function Landing(s: CpuState, e: Exception): u32 {
    AlignFor((ReturnAddress(s, e) - Back(e)) % WORD_RANGE, s.cpsr.thumb)
  }

  /** pc is aligned for the instruction set in use, as every branch leaves it. */
  predicate PcAligned(s: CpuState) { AlignFor(s.pc, s.cpsr.thumb) == s.pc }

  function Width(thumb: bool): nat { if thumb then 2 else 4 }

  /**
   Where A2.6 wants the interrupted program to go on; a reset has nothing to go back to. An exception concerns an
   instruction: the one that calls or traps, the one whose access was aborted, the one that an interrupt came
   before. `fetched` tells that fetching has moved pc past it. After a call or a trap the program goes on at the
   next instruction; an aborted one is tried again, and so is one that was not begun.
   */
  function Resume(s: CpuState, e: Exception, fetched: bool): Option<u32> {
    match e
    case Reset => None
    case UndefinedInstruction => Some(if fetched then s.pc else (s.pc + Width(s.cpsr.thumb)) % WORD_RANGE)
    case SoftwareInterrupt => Some(if fetched then s.pc else (s.pc + Width(s.cpsr.thumb)) % WORD_RANGE)
    case _ => Some(if fetched then (s.pc - Width(s.cpsr.thumb)) % WORD_RANGE else s.pc)
  }

  /**
   The code raises calls and traps in the execution of an instruction, once it is fetched, and interrupts before
   the next fetch. It raises no aborts; an instruction whose data access is aborted has been fetched.
   */
  predicate AsRaised(e: Exception, fetched: bool) {
    match e
    case UndefinedInstruction => fetched
    case SoftwareInterrupt => fetched
    case DataAbort => fetched
    case Interrupt => !fetched
    case FastInterrupt => !fetched
    case _ => true
  }

  /** A call has to be fetched when it is raised, anything else must not be. */
  predicate ReturnsToProgram(e: Exception, fetched: bool) {
    e != Reset && (fetched <==> e == SoftwareInterrupt)
  }

  /**
   The matching return lands where the program has to go on under that condition only. As the code raises them,
   calls and interrupts return to the program; a trap skips an instruction, for the code counts the undefined
   one twice, and so would an abort.
   */
  lemma LandsWhereProgramResumes(s: CpuState, e: Exception, fetched: bool)
    requires PcAligned(s)
    ensures Resume(s, e, fetched) == Some(Landing(s, e)) <==> ReturnsToProgram(e, fetched)
    ensures AsRaised(e, fetched) && e != PrefetchAbort ==>
      (Resume(s, e, fetched) == Some(Landing(s, e)) <==> e == SoftwareInterrupt || e == Interrupt || e == FastInterrupt)
    ensures (e == UndefinedInstruction || e == DataAbort) && fetched ==>
      Some(Landing(s, e)) == Some((Resume(s, e, fetched).value + Width(s.cpsr.thumb)) % WORD_RANGE)
  {
    hide AlignFor;
    AlignedSuccessor(s.pc, s.cpsr.thumb);
    SubtractNothing(ReturnAddress(s, e));
    AddThenSubtract(s.pc, Back(e));
    ZeroAligned(s.cpsr.thumb);
    Neighbours(s.pc, Width(s.cpsr.thumb));
  }

  lemma Neighbours(address: u32, n: nat)
    requires 0 < n < 5
    ensures (address - n) % WORD_RANGE != address && (address + n) % WORD_RANGE != address
    ensures ((address - n) % WORD_RANGE + n) % WORD_RANGE == address
  {
    assert (address - n) % WORD_RANGE == if address < n then address - n + WORD_RANGE else address - n;
    assert (address + n) % WORD_RANGE == if address + n < WORD_RANGE then address + n else address + n - WORD_RANGE;
  }

  lemma SubtractNothing(address: u32)
    ensures (address - 0) % WORD_RANGE == address
  {
  }

  lemma ZeroAligned(thumb: bool)
    ensures AlignFor(0, thumb) == 0
  {
  }

  lemma AlignedSuccessor(address: u32, thumb: bool)
    requires AlignFor(address, thumb) == address
    ensures var next := (address + (if thumb then 2 else 4)) % WORD_RANGE;
      AlignFor(next, thumb) == next && next != address
  {
    if thumb {
      var half := address / 2;
      assert address + 2 == 2 * (half + 1);
    } else {
      var word := address / 4;
      assert address + 4 == 4 * (word + 1);
    }
  }

  lemma AddThenSubtract(address: u32, n: nat)
    requires n < WORD_RANGE
    ensures ((address + n) % WORD_RANGE - n) % WORD_RANGE == address
  {
    assert (address + n) % WORD_RANGE == if address + n < WORD_RANGE then address + n else address + n - WORD_RANGE;
  }

  /** Entry writes one register, the handler's link register, and one saved status. */
  lemma EnterChangesLinkOnly(s: CpuState, e: Exception, p: Register)
    requires Sized(s) && IsRegister(p)
    ensures Value(Enter(s, e), p) == if p == Physical(Target(e), 14) then ReturnAddress(s, e) else Value(s, p)
  {
    hide SwitchMode, Value, Physical, IsRegister;
    var switched := SwitchMode(s, Target(e));
    SwitchKeepsValues(s, Target(e), p);
    WriteChangesOne(switched, 14, ReturnAddress(s, e), p);
    ValueIgnoresStatus(WriteRegister(switched, 14, ReturnAddress(s, e)), Enter(s, e), p);
  }

  lemma ValueIgnoresStatus(s: CpuState, t: CpuState, p: Register)
    requires Sized(s) && Sized(t) && IsRegister(p) && s.cpsr.mode == t.cpsr.mode
    requires s.regs == t.regs && s.usrHigh == t.usrHigh && s.fiqHigh == t.fiqHigh && s.banked == t.banked
    ensures Value(s, p) == Value(t, p)
  {
  }

  lemma EnterSavesStatus(s: CpuState, e: Exception, mode: Mode)
    requires Sized(s) && mode != User && mode != System
    ensures Spsr(Enter(s, e), mode) == if mode == Target(e) then s.cpsr else Spsr(s, mode)
  {
  }

  lemma ReturnKeepsValues(s: CpuState, address: u32, p: Register)
    requires Sized(s) && IsRegister(p)
    ensures Value(ReturnTo(s, address), p) == Value(s, p)
    ensures forall mode :: Spsr(ReturnTo(s, address), mode) == Spsr(s, mode)
  {
    hide SwitchMode, Value, IsRegister;
    var saved := Spsr(s, s.cpsr.mode);
    SwitchKeepsValues(s, saved.mode, p);
    SwitchKeepsSpsrs(s, saved.mode);
    var switched := if s.cpsr.mode != User && saved.mode != s.cpsr.mode then SwitchMode(s, saved.mode) else s;
    ValueIgnoresStatus(switched, ReturnTo(s, address), p);
  }

  lemma SwitchKeepsSpsrs(s: CpuState, mode: Mode)
    requires Sized(s)
    ensures forall m :: Spsr(SwitchMode(s, mode), m) == Spsr(s, m)
  {
  }

  /** What a handler must leave as it found it: the saved status, its link register, and the interrupted program's registers. */
  ghost predicate Respected(s: CpuState, e: Exception, after: CpuState)
    requires Sized(s)
  {
    && Sized(after) && after.cpsr.mode == Target(e)
    && Spsr(after, Target(e)) == Spsr(Enter(s, e), Target(e))
    && after.regs[14] == Enter(s, e).regs[14]
    && forall r | 0 <= r < 15 :: Value(after, Physical(s.cpsr.mode, r)) == Value(s, Physical(s.cpsr.mode, r))
  }

  lemma BanksDiffer(a: Mode, b: Mode, r: nat)
    requires a != b && b != User && b != System && r < 15
    ensures IsRegister(Physical(a, r)) && IsRegister(Physical(b, 14)) && Physical(a, r) != Physical(b, 14)
  {
  }

  lemma ReturnedRegister(s: CpuState, e: Exception, after: CpuState, r: nat)
    requires Sized(s) && Respected(s, e, after) && r < 15
    requires Sized(Return(after, e)) && Return(after, e).cpsr.mode == s.cpsr.mode
    ensures Return(after, e).regs[r] == s.regs[r]
  {
    SeesOwnBank(s, r);
    SeesOwnBank(Return(after, e), r);
    ReturnKeepsValues(after, (after.regs[14] - Back(e)) % WORD_RANGE, Physical(s.cpsr.mode, r));
    hide Value, ReturnTo, Enter, Physical, Spsr;
  }

  lemma EnteredLink(s: CpuState, e: Exception)
    requires Sized(s)
    ensures Enter(s, e).regs[14] == ReturnAddress(s, e)
  {
    hide SwitchMode, ReturnAddress, AlignFor;
  }

  lemma ReturnLands(s: CpuState, e: Exception, after: CpuState)
    requires Sized(s) && Respected(s, e, after)
    ensures Return(after, e).cpsr == s.cpsr && Sized(Return(after, e)) && Return(after, e).pc == Landing(s, e)
  {
    hide Value, SwitchMode, Physical, AlignFor, Enter, Spsr, ReturnAddress;
    EnterSavesStatus(s, e, Target(e));
    EnteredLink(s, e);
    assert Target(e) != User;
  }

  /**
   Whatever a handler does in between, if it leaves those alone, the matching return gives the interrupted
   program its status and all fifteen registers back, and its place under the condition for that.
   */
  lemma ReturnRestores(s: CpuState, e: Exception, after: CpuState, fetched: bool)
    requires Sized(s) && s.cpsr.mode != Target(e) && Respected(s, e, after)
    ensures Return(after, e).cpsr == s.cpsr
    ensures Return(after, e).regs == s.regs
    ensures PcAligned(s) ==> (Resume(s, e, fetched) == Some(Return(after, e).pc) <==> ReturnsToProgram(e, fetched))
  {
    hide ReturnsToProgram, PcAligned, Resume;
    ReturnLands(s, e, after);
    if PcAligned(s) {
      LandsWhereProgramResumes(s, e, fetched);
    }
    hide Respected, Return, Landing;
    forall r: nat | r < 15
      ensures Return(after, e).regs[r] == s.regs[r]
    {
      ReturnedRegister(s, e, after, r);
    }
  }

  /**
   From the handler's own mode both the caller's link register and its saved status are overwritten: the
   return brings back CPSR, but r14 only if it held the return address, and never the saved status.
   */
  lemma SameModeLosesLinkAndStatus(s: CpuState, e: Exception)
    requires Sized(s) && s.cpsr.mode == Target(e)
    ensures Return(Enter(s, e), e).cpsr == s.cpsr
    ensures Return(Enter(s, e), e).regs[14] == s.regs[14] <==> ReturnAddress(s, e) == s.regs[14]
    ensures Spsr(Return(Enter(s, e), e), s.cpsr.mode) == s.cpsr
  {
  }

  // ----- Nested exceptions -----

  /** Take the exceptions one inside the other, then return from each, innermost first. */
  function Nest(s: CpuState, es: seq<Exception>): (t: CpuState)
    requires Sized(s)
    ensures Sized(t)
    decreases |es|
  {
    if es == [] then s
    else Return(Nest(Enter(s, es[0]), es[1..]), es[0])
  }

  /** Every exception goes to a mode of its own, none to the interrupted one. */
  ghost predicate DistinctModes(mode: Mode, es: seq<Exception>)
    decreases |es|
  {
    es == [] || (!Targeted(mode, es) && DistinctModes(Target(es[0]), es[1..]))
  }

  ghost predicate Targeted(mode: Mode, es: seq<Exception>)
    decreases |es|
  {
    es != [] && (Target(es[0]) == mode || Targeted(mode, es[1..]))
  }

  /** p is the link register of one of the exceptions' modes. */
  ghost predicate LinkOf(p: Register, es: seq<Exception>)
    decreases |es|
  {
    es != [] && (p == Physical(Target(es[0]), 14) || LinkOf(p, es[1..]))
  }

  lemma {:induction false} NotALinkOf(mode: Mode, r: nat, es: seq<Exception>)
    requires r < 15 && !Targeted(mode, es)
    ensures !LinkOf(Physical(mode, r), es)
    decreases |es|
  {
    if es != [] {
      BanksDiffer(mode, Target(es[0]), r);
      NotALinkOf(mode, r, es[1..]);
    }
  }

  /** A nest disturbs no register but the link registers, and no saved status but those of its modes. */
  lemma {:induction false} NestDisturbsOnlyItsModes(s: CpuState, es: seq<Exception>, p: Register, mode: Mode)
    requires Sized(s) && DistinctModes(s.cpsr.mode, es) && IsRegister(p)
    requires !LinkOf(p, es) && !Targeted(mode, es) && mode != User && mode != System
    ensures Value(Nest(s, es), p) == Value(s, p)
    ensures Spsr(Nest(s, es), mode) == Spsr(s, mode)
    decreases |es|
  {
    hide Value, Physical, Enter, ReturnTo, IsRegister, Spsr;
    if es != [] {
      var e, entered := es[0], Enter(s, es[0]);
      NestDisturbsOnlyItsModes(entered, es[1..], p, mode);
      EnterChangesLinkOnly(s, e, p);
      EnterSavesStatus(s, e, mode);
      var inner := Nest(entered, es[1..]);
      ReturnKeepsValues(inner, (inner.regs[14] - Back(e)) % WORD_RANGE, p);
    }
  }

  /** What the outer handler must respect survives the exceptions nested in it. */
  lemma InnerNestRespects(s: CpuState, es: seq<Exception>)
    requires Sized(s) && es != [] && DistinctModes(s.cpsr.mode, es)
    requires var entered := Enter(s, es[0]);
      Nest(entered, es[1..]).cpsr == entered.cpsr && Nest(entered, es[1..]).regs == entered.regs
    ensures Respected(s, es[0], Nest(Enter(s, es[0]), es[1..]))
  {
    hide Value, Enter, Nest, Spsr;
    var e, entered, inner := es[0], Enter(s, es[0]), Nest(Enter(s, es[0]), es[1..]);
    BanksDiffer(s.cpsr.mode, Target(e), 14);
    NotALinkOf(s.cpsr.mode, 14, es[1..]);
    NestDisturbsOnlyItsModes(entered, es[1..], Physical(s.cpsr.mode, 14), Target(e));
    forall r | 0 <= r < 15
      ensures Value(inner, Physical(s.cpsr.mode, r)) == Value(s, Physical(s.cpsr.mode, r))
    {
      BanksDiffer(s.cpsr.mode, Target(e), r);
      NotALinkOf(s.cpsr.mode, r, es[1..]);
      NestDisturbsOnlyItsModes(entered, es[1..], Physical(s.cpsr.mode, r), Target(e));
      EnterChangesLinkOnly(s, e, Physical(s.cpsr.mode, r));
    }
  }

  /** Nested to any depth of distinct modes, unwinding restores status, registers and, when ReturnRestores does, place. */
  lemma {:induction false} NestRestores(s: CpuState, es: seq<Exception>, fetched: bool)
    requires Sized(s) && DistinctModes(s.cpsr.mode, es)
    ensures Nest(s, es).cpsr == s.cpsr && Nest(s, es).regs == s.regs
    ensures es == [] ==> Nest(s, es).pc == s.pc
    ensures es != [] && PcAligned(s) ==>
      (Resume(s, es[0], fetched) == Some(Nest(s, es).pc) <==> ReturnsToProgram(es[0], fetched))
    decreases |es|
  {
    hide Value, Physical, Enter, Return, IsRegister, Spsr, ReturnsToProgram, PcAligned, Resume;
    if es != [] {
      var e, entered := es[0], Enter(s, es[0]);
      var inner := Nest(entered, es[1..]);
      NestRestores(entered, es[1..], false);
      InnerNestRespects(s, es);
      ReturnRestores(s, e, inner, fetched);
    }
  }

  /** The mode whose status the last exception to `mode` saved there; None if none went there. */
  function SavedBy(start: Mode, es: seq<Exception>, mode: Mode): Option<Mode>
    decreases |es|
  {
    if es == [] then None
    else
      var later := SavedBy(Target(es[0]), es[1..], mode);
      if later.Some? then later else if Target(es[0]) == mode then Some(start) else None
  }

  lemma {:induction false} SavedByATarget(start: Mode, es: seq<Exception>, mode: Mode)
    ensures SavedBy(start, es, mode).Some? <==> Targeted(mode, es)
    ensures SavedBy(start, es, mode).Some? ==>
      SavedBy(start, es, mode).value == start || Targeted(SavedBy(start, es, mode).value, es)
    decreases |es|
  {
    if es != [] {
      SavedByATarget(Target(es[0]), es[1..], mode);
    }
  }

  lemma TargetsSaveStatus(mode: Mode, es: seq<Exception>)
    requires Targeted(mode, es)
    ensures mode != User && mode != System
    decreases |es|
  {
    if Target(es[0]) != mode {
      TargetsSaveStatus(mode, es[1..]);
    }
  }

  lemma {:induction false} NestSavesStatus(s: CpuState, es: seq<Exception>, mode: Mode)
    requires Sized(s) && mode != User && mode != System
    ensures Spsr(Nest(s, es), mode).mode == match SavedBy(s.cpsr.mode, es, mode) case Some(m) => m case None => Spsr(s, mode).mode
    decreases |es|
  {
    hide Value, Physical, Enter, ReturnTo, IsRegister, Spsr;
    if es != [] {
      var entered := Enter(s, es[0]);
      NestSavesStatus(entered, es[1..], mode);
      EnterSavesStatus(s, es[0], mode);
      var inner := Nest(entered, es[1..]);
      ReturnKeepsStatus(inner, (inner.regs[14] - Back(es[0])) % WORD_RANGE, mode);
    }
  }

  lemma ReturnKeepsStatus(s: CpuState, address: u32, mode: Mode)
    requires Sized(s)
    ensures Spsr(ReturnTo(s, address), mode) == Spsr(s, mode)
    ensures s.cpsr.mode != User ==> ReturnTo(s, address).cpsr == Spsr(s, s.cpsr.mode)
  {
    SwitchKeepsSpsrs(s, Spsr(s, s.cpsr.mode).mode);
  }

  /**
   From a mode that none of the exceptions goes to, the nest comes back to that mode exactly when the
   exceptions go to distinct modes: a mode entered twice has lost the status saved there first.
   */
  lemma {:induction false} NestReturnsIffModesDistinct(s: CpuState, es: seq<Exception>)
    requires Sized(s) && !Targeted(s.cpsr.mode, es)
    ensures Nest(s, es).cpsr.mode == s.cpsr.mode <==> DistinctModes(s.cpsr.mode, es)
    ensures Nest(s, es).cpsr.mode == s.cpsr.mode || Targeted(Nest(s, es).cpsr.mode, es)
    decreases |es|
  {
    hide Value, Physical, Enter, ReturnTo, IsRegister, Spsr;
    if es != [] {
      var m := s.cpsr.mode;
      var entered := Enter(s, es[0]);
      var inner := Nest(entered, es[1..]);
      NestStaysInTargets(entered, es[1..]);
      var f := inner.cpsr.mode;
      TargetsSaveStatus(f, es);
      NestSavesStatus(entered, es[1..], f);
      EnterSavesStatus(s, es[0], f);
      ReturnKeepsStatus(inner, (inner.regs[14] - Back(es[0])) % WORD_RANGE, f);
      SavedByATarget(entered.cpsr.mode, es[1..], f);
      if !Targeted(Target(es[0]), es[1..]) {
        NestReturnsIffModesDistinct(entered, es[1..]);
      }
    }
  }

  /** Then, and only then, status and registers come back as well. */
  lemma NestRestoresIffModesDistinct(s: CpuState, es: seq<Exception>)
    requires Sized(s) && !Targeted(s.cpsr.mode, es)
    ensures Nest(s, es).cpsr == s.cpsr && Nest(s, es).regs == s.regs <==> DistinctModes(s.cpsr.mode, es)
  {
    hide Nest, DistinctModes, Targeted;
    NestReturnsIffModesDistinct(s, es);
    if DistinctModes(s.cpsr.mode, es) {
      NestRestores(s, es, false);
    }
  }

  /** However the exceptions repeat modes, unwinding ends in the mode they started from or in one of theirs. */
  lemma {:induction false} NestStaysInTargets(s: CpuState, es: seq<Exception>)
    requires Sized(s)
    ensures Nest(s, es).cpsr.mode == s.cpsr.mode || Targeted(Nest(s, es).cpsr.mode, es)
    decreases |es|
  {
    hide Value, Physical, Enter, ReturnTo, IsRegister, Spsr;
    if es != [] {
      var entered := Enter(s, es[0]);
      var inner := Nest(entered, es[1..]);
      NestStaysInTargets(entered, es[1..]);
      var f := inner.cpsr.mode;
      TargetsSaveStatus(f, es);
      NestSavesStatus(entered, es[1..], f);
      EnterSavesStatus(s, es[0], f);
      ReturnKeepsStatus(inner, (inner.regs[14] - Back(es[0])) % WORD_RANGE, f);
      SavedByATarget(entered.cpsr.mode, es[1..], f);
    }
  }

  /** So two exceptions to one mode, one inside the other, never come back: the outer return stays in that mode. */
  lemma RepeatedModeNeverReturns(s: CpuState, a: Exception, b: Exception)
    requires Sized(s) && s.cpsr.mode != Target(a) == Target(b)
    ensures Nest(s, [a, b]).cpsr.mode == Target(a)
  {
    hide Nest, Enter, Targeted, DistinctModes;
    TargetsOfTwo(a, b, s.cpsr.mode);
    NestReturnsIffModesDistinct(s, [a, b]);
    TargetsOfTwo(a, b, Nest(s, [a, b]).cpsr.mode);
  }

  lemma TargetsOfTwo(a: Exception, b: Exception, mode: Mode)
    ensures Targeted(mode, [a, b]) <==> Target(a) == mode || Target(b) == mode
    ensures Target(a) == Target(b) ==> !DistinctModes(mode, [a, b])
  {
    assert [a, b][1..] == [b] && [b][1..] == [];
    assert Targeted(mode, [b]) <==> Target(b) == mode;
    assert Targeted(Target(a), [b]) <==> Target(b) == Target(a);
    assert DistinctModes(Target(a), [b]) ==> !Targeted(Target(a), [b]);
  }

  // ----- The processor itself -----

  class Cpu {
    var regs: seq<u32>
    var pc: u32
    var cpsr: Psr
    var usrHigh: seq<u32>
    var fiqHigh: seq<u32>
    var banked: seq<(u32, u32)>
    var spsrSvc: Psr
    var spsrIrq: Psr
    var spsrAbt: Psr
    var spsrUnd: Psr
    var spsrFiq: Psr
    var halted: bool

    function State(): CpuState
      reads this
    {
      CpuState(regs, pc, cpsr, usrHigh, fiqHigh, banked, spsrSvc, spsrIrq, spsrAbt, spsrUnd, spsrFiq)
    }

    constructor ()
      ensures Sized(State()) && cpsr.mode == System && !halted
    {
      regs, usrHigh, fiqHigh, banked := seq(15, _ => 0), seq(5, _ => 0), seq(7, _ => 0), seq(5, _ => (0, 0));
      pc, halted := 0, false;
      cpsr := Psr(0, false, false, false, System);
      spsrSvc, spsrIrq, spsrAbt, spsrUnd, spsrFiq :=
        Psr(0, false, false, false, User), Psr(0, false, false, false, User), Psr(0, false, false, false, User),
        Psr(0, false, false, false, User), Psr(0, false, false, false, User);
    }

    method SaveVisible()
      requires Sized(State())
      modifies this`fiqHigh, this`usrHigh, this`banked
      ensures State() == SaveBank(old(State()))
    {
      if cpsr.mode == Fiq {
        fiqHigh := fiqHigh[0 := regs[8]][1 := regs[9]][2 := regs[10]][3 := regs[11]][4 := regs[12]];
        fiqHigh := fiqHigh[5 := regs[13]][6 := regs[14]];
      } else {
        usrHigh := usrHigh[0 := regs[8]][1 := regs[9]][2 := regs[10]][3 := regs[11]][4 := regs[12]];
      }
      if cpsr.mode != Fiq {
        banked := banked[BankIndex(cpsr.mode) := (regs[13], regs[14])];
      }
    }

    method LoadVisible()
      requires Sized(State())
      modifies this`regs
      ensures State() == LoadBank(old(State()))
    {
      if cpsr.mode == Fiq {
        regs := regs[8 := fiqHigh[0]][9 := fiqHigh[1]][10 := fiqHigh[2]][11 := fiqHigh[3]][12 := fiqHigh[4]];
        regs := regs[13 := fiqHigh[5]][14 := fiqHigh[6]];
      } else {
        regs := regs[8 := usrHigh[0]][9 := usrHigh[1]][10 := usrHigh[2]][11 := usrHigh[3]][12 := usrHigh[4]];
      }
      if cpsr.mode == Fiq {
        regs := regs[13 := fiqHigh[5]][14 := fiqHigh[6]];
      } else {
        var bank := banked[BankIndex(cpsr.mode)];
        regs := regs[13 := bank.0][14 := bank.1];
      }
    }

    /** switch_mode */
    method ChangeMode(mode: Mode)
      requires Sized(State())
      modifies this`fiqHigh, this`usrHigh, this`banked, this`regs, this`cpsr
      ensures State() == SwitchMode(old(State()), mode)
    {
      hide SaveBank, LoadBank;
      if cpsr.mode == mode {
        return;
      }
      SaveVisible();
      cpsr := cpsr.(mode := mode);
      LoadVisible();
    }

    method StoreSpsr(mode: Mode, value: Psr)
      modifies this`spsrSvc, this`spsrIrq, this`spsrAbt, this`spsrUnd, this`spsrFiq
      ensures State() == SetSpsr(old(State()), mode, value)
    {
      match mode
      case Irq => spsrIrq := value;
      case Abort => spsrAbt := value;
      case Undefined => spsrUnd := value;
      case Fiq => spsrFiq := value;
      case _ => spsrSvc := value;
    }

    method Branch(address: u32, thumb: bool)
      requires Sized(State())
      modifies this`pc, this`cpsr
      ensures State() == BranchTo(old(State()), address, thumb)
    {
      hide AlignFor;
      cpsr := cpsr.(thumb := thumb);
      pc := AlignFor(address, thumb);
    }

    /** raise_exception, through enter_exception */
    method RaiseException(e: Exception)
      requires Sized(State())
      modifies this
      ensures State() == Enter(old(State()), e) && !halted
    {
      hide SwitchMode, SetSpsr, AlignFor, ReturnAddress;
      var oldCpsr, returnAddress := cpsr, ReturnAddress(State(), e);
      SetSpsrKeepsRest(SwitchMode(State(), Target(e)), Target(e), oldCpsr);
      ChangeMode(Target(e));
      StoreSpsr(Target(e), oldCpsr);
      regs := regs[14 := returnAddress];
      cpsr := cpsr.(thumb := false, irqOff := true, fiqOff := MasksFiq(e));
      halted := false;
      Branch(Vector(e), false);
    }

    /** The S-bit write to pc. */
    method ExceptionReturn(address: u32)
      requires Sized(State())
      modifies this
      ensures State() == ReturnTo(old(State()), address)
    {
      hide SwitchMode, AlignFor;
      if cpsr.mode == User {
        Branch(AlignFor(address, false), false);
        return;
      }
      var newCpsr := Spsr(State(), cpsr.mode);
      if newCpsr.mode != cpsr.mode {
        ChangeMode(newCpsr.mode);
      }
      cpsr := newCpsr;
      Branch(address, newCpsr.thumb);
    }
  }

  lemma SetSpsrKeepsRest(s: CpuState, mode: Mode, value: Psr)
    requires Sized(s)
    ensures Sized(SetSpsr(s, mode, value))
  {
  }
}
