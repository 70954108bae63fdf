/** The flash save memory's command machine (src/core/cartridge.cpp flash_write and below). */
module Flash {
  import opened Basics

  datatype Kind = Flash64K | Flash128K

  datatype Write = Write(address: u32, value: u8)

  datatype State = State(
    kind: Kind, save: seq<u8>, dirty: bool, phase: nat,
    chipId: bool, eraseEnable: bool, writeEnable: bool, bankSelect: bool, bank: nat)

  const BANK: nat := 0x1_0000
  const SECTOR: nat := 0x1000

  function Size(kind: Kind): nat { if kind == Flash128K then 2 * BANK else BANK }

  ghost predicate Sized(s: State) { |s.save| == Size(s.kind) && s.bank < 2 }

  /** flash_physical */
  function PhysicalOffset(s: State, address: nat): nat {
    if s.kind == Flash128K then s.bank * BANK + address else address
  }

  const UNLOCK1 := Write(0x5555, 0xAA)
  const UNLOCK2 := Write(0x2AAA, 0x55)

  function SectorBase(s: State, address: u32): nat { PhysicalOffset(s, address / SECTOR % 0x10 * SECTOR) }

  function Filled(save: seq<u8>, from: nat, until: nat): (r: seq<u8>)
    ensures |r| == |save|
  {
    seq(|save|, i requires 0 <= i < |save| => if from <= i < until then 0xFF else save[i])
  }

  /** flash_handle_command */
  function Command(s: State, w: Write): State {
    var idle := s.(phase := 0);
    if w.value == 0x90 then idle.(chipId := true)
    else if w.value == 0xF0 then idle.(chipId := false)
    else if w.value == 0x80 then idle.(eraseEnable := true)
    else if w.value == 0xA0 then idle.(writeEnable := true, phase := 3)
    else if w.value == 0xB0 then
      if s.kind == Flash128K then idle.(bankSelect := true, phase := 3) else idle
    else if w.value == 0x10 then
      if s.eraseEnable then idle.(save := Filled(s.save, 0, |s.save|), dirty := true, eraseEnable := false) else idle
    else if w.value == 0x30 then
      if s.eraseEnable then
        var base := SectorBase(s, w.address);
        idle.(save := Filled(s.save, base, base + SECTOR), dirty := true, eraseEnable := false)
      else idle
    else idle
  }

  /** flash_handle_extended */
  function Extended(s: State, w: Write): State {
    var idle := s.(phase := 0);
    if s.writeEnable then
      var offset := PhysicalOffset(s, w.address % BANK);
      if offset < |s.save| then idle.(writeEnable := false, save := s.save[offset := w.value], dirty := true)
      else idle.(writeEnable := false)
    else if s.bankSelect then idle.(bankSelect := false, bank := w.value % 2)
    else idle
  }

  /** flash_write */
  function Step(s: State, w: Write): State {
    match s.phase
    case 0 => if w == UNLOCK1 then s.(phase := 1) else s
    case 1 => if w == UNLOCK2 then s.(phase := 2) else s.(phase := 0)
    case 2 => Command(s, w)
    case 3 => Extended(s, w)
    case _ => s
  }

  function Fresh(kind: Kind, save: seq<u8>): State {
    State(kind, save, false, 0, false, false, false, false, 0)
  }

  function Run(kind: Kind, save: seq<u8>, h: seq<Write>): State {
    if h == [] then Fresh(kind, save) else Step(Run(kind, save, h[..|h| - 1]), h[|h| - 1])
  }

  // ----- What the state remembers of the writes -----

  ghost predicate EndsWith(h: seq<Write>, n: nat, w: Write) {
    |h| > n && h[|h| - 1 - n] == w
  }

  /** The last writes unlocked the chip; `ago` writes have come since. */
  ghost predicate Unlocked(h: seq<Write>, ago: nat) {
    EndsWith(h, ago + 1, UNLOCK1) && EndsWith(h, ago, UNLOCK2)
  }

  /** The machine's mode and what has just been written agree, and waiting for data is one thing at a time. */
  ghost predicate Remembers(s: State, h: seq<Write>) {
    && s.phase <= 3
    && (s.phase == 3 <==> s.writeEnable != s.bankSelect)
    && !(s.writeEnable && s.bankSelect)
    && (s.phase == 1 ==> EndsWith(h, 0, UNLOCK1))
    && (s.phase == 2 ==> Unlocked(h, 0))
    && (s.writeEnable ==> Unlocked(h, 1) && h[|h| - 1].value == 0xA0)
    && (s.bankSelect ==> Unlocked(h, 1) && h[|h| - 1].value == 0xB0 && s.kind == Flash128K)
  }

  lemma StepRemembers(s: State, h: seq<Write>, w: Write)
    requires Remembers(s, h)
    ensures Remembers(Step(s, w), h + [w])
  {
    hide SectorBase, PhysicalOffset, Filled;
  }

  lemma CommandKeepsSize(s: State, w: Write)
    requires Sized(s)
    ensures Sized(Command(s, w)) && Command(s, w).kind == s.kind
  {
    hide PhysicalOffset, SectorBase, Filled;
  }

  lemma ExtendedKeepsSize(s: State, w: Write)
    requires Sized(s)
    ensures Sized(Extended(s, w)) && Extended(s, w).kind == s.kind
  {
    hide PhysicalOffset;
  }

  lemma StepKeepsSize(s: State, w: Write)
    requires Sized(s)
    ensures Sized(Step(s, w)) && Step(s, w).kind == s.kind
  {
    hide Command, Extended;
    CommandKeepsSize(s, w);
    ExtendedKeepsSize(s, w);
  }

  lemma {:induction false} RunRemembers(kind: Kind, save: seq<u8>, h: seq<Write>)
    requires |save| == Size(kind)
    ensures Remembers(Run(kind, save, h), h) && Sized(Run(kind, save, h)) && Run(kind, save, h).kind == kind
  {
    if h != [] {
      var earlier, w := h[..|h| - 1], h[|h| - 1];
      hide Step, Remembers, Sized;
      RunRemembers(kind, save, earlier);
      StepRemembers(Run(kind, save, earlier), earlier, w);
      StepKeepsSize(Run(kind, save, earlier), w);
      assert h == earlier + [w];
    }
  }

  /** Write number k was the command `value`. */
  ghost predicate CommandAt(kind: Kind, save: seq<u8>, h: seq<Write>, k: nat, value: u8) {
    k < |h| && h[k].value == value && Run(kind, save, h[..k]).phase == 2
  }

  /** Write number k was an erase command, of the chip or of a sector. */
  ghost predicate EraseAt(kind: Kind, save: seq<u8>, h: seq<Write>, k: nat) {
    CommandAt(kind, save, h, k, 0x10) || CommandAt(kind, save, h, k, 0x30)
  }

  /** There was an unlocked 80, and no erase command since. */
  ghost predicate ErasePending(kind: Kind, save: seq<u8>, h: seq<Write>) {
    exists j: nat :: CommandAt(kind, save, h, j, 0x80) && forall k: nat | j < k < |h| :: !EraseAt(kind, save, h, k)
  }

  lemma PrefixCommands(kind: Kind, save: seq<u8>, h: seq<Write>, k: nat, value: u8)
    requires h != [] && k < |h| - 1
    ensures CommandAt(kind, save, h, k, value) <==> CommandAt(kind, save, h[..|h| - 1], k, value)
  {
    assert h[..|h| - 1][..k] == h[..k];
  }

  /** The erase-enable flag is exactly a pending 80. */
  lemma {:induction false} EraseEnableIsPending(kind: Kind, save: seq<u8>, h: seq<Write>)
    ensures Run(kind, save, h).eraseEnable <==> ErasePending(kind, save, h)
  {
    if h != [] {
      var earlier, n := h[..|h| - 1], |h| - 1;
      EraseEnableIsPending(kind, save, earlier);
      EraseEnableStep(Run(kind, save, earlier), h[n]);
      assert h[..n] == earlier;
      hide Step, Run;
      if CommandAt(kind, save, h, n, 0x80) {
        assert ErasePending(kind, save, h);
      } else {
        PendingStep(kind, save, h);
      }
    }
  }

  lemma EraseEnableStep(s: State, w: Write)
    ensures Step(s, w).eraseEnable ==
      if s.phase == 2 && w.value == 0x80 then true
      else if s.phase == 2 && (w.value == 0x10 || w.value == 0x30) then false
      else s.eraseEnable
  {
  }

  lemma PendingStep(kind: Kind, save: seq<u8>, h: seq<Write>)
    requires h != [] && !CommandAt(kind, save, h, |h| - 1, 0x80)
    ensures ErasePending(kind, save, h) <==> ErasePending(kind, save, h[..|h| - 1]) && !EraseAt(kind, save, h, |h| - 1)
  {
    hide Run, CommandAt;
    var earlier, n := h[..|h| - 1], |h| - 1;
    forall k: nat, value: u8 | k < n
      ensures CommandAt(kind, save, h, k, value) <==> CommandAt(kind, save, earlier, k, value)
    {
      PrefixCommands(kind, save, h, k, value);
    }
    CommandsWithin(kind, save, h);
    CommandsWithin(kind, save, earlier);
    if ErasePending(kind, save, h) {
      var j: nat :| CommandAt(kind, save, h, j, 0x80) && forall k: nat | j < k < |h| :: !EraseAt(kind, save, h, k);
      assert CommandAt(kind, save, earlier, j, 0x80);
      assert forall k: nat | j < k < n :: EraseAt(kind, save, h, k) == EraseAt(kind, save, earlier, k);
    }
    if ErasePending(kind, save, earlier) && !EraseAt(kind, save, h, n) {
      var j: nat :| CommandAt(kind, save, earlier, j, 0x80) && forall k: nat | j < k < |earlier| :: !EraseAt(kind, save, earlier, k);
      assert CommandAt(kind, save, h, j, 0x80);
      assert forall k: nat | j < k < n :: EraseAt(kind, save, h, k) == EraseAt(kind, save, earlier, k);
    }
  }

  lemma CommandsWithin(kind: Kind, save: seq<u8>, h: seq<Write>)
    ensures forall k: nat, value: u8 :: CommandAt(kind, save, h, k, value) ==> k < |h|
  {
  }

  // ----- When a saved byte changes -----

  /** A write programs byte o: the write before it was the unlocked command A0. */
  ghost predicate Programs(kind: Kind, save: seq<u8>, h: seq<Write>, w: Write, o: nat) {
    && |h| > 0 && CommandAt(kind, save, h, |h| - 1, 0xA0)
    && o == PhysicalOffset(Run(kind, save, h), w.address % BANK)
  }

  /** A write erases byte o: it is an unlocked command, an 80 is pending, and o is in the chip or in the sector addressed. */
  ghost predicate Erases(kind: Kind, save: seq<u8>, h: seq<Write>, w: Write, o: nat) {
    && Run(kind, save, h).phase == 2 && ErasePending(kind, save, h)
    && (w.value == 0x10 || (w.value == 0x30 && InSector(Run(kind, save, h), w.address, o)))
  }

  ghost predicate InSector(s: State, address: u32, o: nat) {
    SectorBase(s, address) <= o < SectorBase(s, address) + SECTOR
  }

  /** Write-enable is set exactly when the last write was the unlocked command A0. */
  lemma WriteEnableIsCommand(kind: Kind, save: seq<u8>, h: seq<Write>)
    requires |save| == Size(kind)
    ensures Run(kind, save, h).writeEnable <==> |h| > 0 && CommandAt(kind, save, h, |h| - 1, 0xA0)
  {
    if h != [] {
      var earlier := h[..|h| - 1];
      RunRemembers(kind, save, earlier);
      hide Remembers;
      WriteEnableStep(Run(kind, save, earlier), h[|h| - 1], earlier);
    }
  }

  lemma WriteEnableStep(s: State, w: Write, h: seq<Write>)
    requires Remembers(s, h)
    ensures Step(s, w).writeEnable <==> s.phase == 2 && w.value == 0xA0
  {
    hide SectorBase, PhysicalOffset, Filled;
  }

  lemma CommandBytes(s: State, w: Write, o: nat)
    requires Sized(s) && Sized(Command(s, w)) && o < |s.save|
    ensures Command(s, w).save[o] ==
      if s.eraseEnable && (w.value == 0x10 || (w.value == 0x30 && InSector(s, w.address, o))) then 0xFF else s.save[o]
  {
    hide PhysicalOffset, SectorBase;
    FilledAt(s.save, 0, |s.save|, o);
    FilledAt(s.save, SectorBase(s, w.address), SectorBase(s, w.address) + SECTOR, o);
    hide Filled;
  }

  lemma FilledAt(save: seq<u8>, from: nat, until: nat, o: nat)
    requires o < |save|
    ensures Filled(save, from, until)[o] == if from <= o < until then 0xFF else save[o]
  {
  }

  lemma ExtendedBytes(s: State, w: Write, o: nat)
    requires Sized(s) && Sized(Extended(s, w)) && o < |s.save|
    ensures Extended(s, w).save[o] ==
      if s.writeEnable && o == PhysicalOffset(s, w.address % BANK) then w.value else s.save[o]
  {
    hide PhysicalOffset;
  }

  /**
   In any run, each write makes of a saved byte exactly this: the value written if it programs the byte, FF if
   it erases it, and what the byte was otherwise.
   */
  lemma ByteAfterWrite(kind: Kind, save: seq<u8>, h: seq<Write>, w: Write, o: nat)
    requires |save| == Size(kind) && o < |save|
    ensures |Run(kind, save, h).save| == |save| == |Run(kind, save, h + [w]).save|
    ensures Run(kind, save, h + [w]).save[o] ==
      if Programs(kind, save, h, w, o) then w.value
      else if Erases(kind, save, h, w, o) then 0xFF
      else Run(kind, save, h).save[o]
    ensures Programs(kind, save, h, w, o) ==> Unlocked(h, 1) && h[|h| - 1].value == 0xA0
    ensures Erases(kind, save, h, w, o) ==> Unlocked(h, 0)
  {
    hide Step, SectorBase, PhysicalOffset, ErasePending, CommandAt;
    assert (h + [w])[..|h + [w]| - 1] == h;
    var s := Run(kind, save, h);
    RunRemembers(kind, save, h);
    RunRemembers(kind, save, h + [w]);
    EraseEnableIsPending(kind, save, h);
    WriteEnableIsCommand(kind, save, h);
    CommandKeepsSize(s, w);
    ExtendedKeepsSize(s, w);
    StepByPhase(s, w);
    CommandBytes(s, w, o);
    ExtendedBytes(s, w, o);
    hide InSector, Command, Extended, Run, Sized;
  }

  /** Only a command, or what follows one, can touch the saved bytes. */
  lemma StepByPhase(s: State, w: Write)
    ensures if s.phase == 2 then Step(s, w) == Command(s, w)
            else if s.phase == 3 then Step(s, w) == Extended(s, w)
            else Step(s, w).save == s.save
  {
    hide Command, Extended;
  }

  // ----- What the command sequences do -----

  function RunFrom(s: State, h: seq<Write>): State {
    if h == [] then s else Step(RunFrom(s, h[..|h| - 1]), h[|h| - 1])
  }

  /** Ready for a new sequence. */
  predicate Idle(s: State) { s.phase == 0 && !s.writeEnable && !s.bankSelect }

  lemma RunMore(s: State, h: seq<Write>, w: Write)
    ensures RunFrom(s, h + [w]) == Step(RunFrom(s, h), w)
  {
    assert (h + [w])[..|h|] == h;
  }

  lemma RunOfFour(s: State, a: Write, b: Write, c: Write, d: Write)
    ensures RunFrom(s, [a, b, c, d]) == Step(Step(Step(Step(s, a), b), c), d)
  {
    hide Step;
    RunMore(s, [], a);
    RunMore(s, [a], b);
    RunMore(s, [a, b], c);
    RunMore(s, [a, b, c], d);
    assert [] + [a] == [a] && [a] + [b] == [a, b] && [a, b] + [c] == [a, b, c] && [a, b, c] + [d] == [a, b, c, d];
  }

  lemma UnlockSequence(s: State)
    requires s.phase == 0
    ensures Step(Step(s, UNLOCK1), UNLOCK2) == s.(phase := 2)
  {
    hide Command, Extended;
  }

  lemma CommandStep(s: State, w: Write)
    requires s.phase == 2
    ensures Step(s, w) == Command(s, w)
  {
    hide Command, Extended;
  }

  lemma ExtendedStep(s: State, w: Write)
    requires s.phase == 3
    ensures Step(s, w) == Extended(s, w)
  {
    hide Command, Extended;
  }

  lemma OffsetFits(s: State, address: u32)
    requires Sized(s)
    ensures PhysicalOffset(s, address % BANK) < |s.save|
  {
  }

  /** Unlock, A0, data: one byte of the current bank takes the value, and nothing else changes. */
  lemma ProgramSequence(s: State, command: u32, w: Write)
    requires Sized(s) && Idle(s)
    ensures var offset := PhysicalOffset(s, w.address % BANK);
      offset < |s.save|
      && RunFrom(s, [UNLOCK1, UNLOCK2, Write(command, 0xA0), w]) == s.(save := s.save[offset := w.value], dirty := true)
  {
    hide SectorBase, Filled, Step, RunFrom;
    RunOfFour(s, UNLOCK1, UNLOCK2, Write(command, 0xA0), w);
    UnlockSequence(s);
    CommandStep(s.(phase := 2), Write(command, 0xA0));
    ExtendedStep(s.(phase := 3, writeEnable := true), w);
    OffsetFits(s, w.address);
  }

  /** Begun in the middle of another sequence, those four writes do not program: the first one ends that sequence instead. */
  lemma ProgramSequenceNeedsIdle(s: State, command: u32, w: Write)
    requires Sized(s) && 1 <= s.phase <= 3 && !(s.writeEnable && s.bankSelect) && (s.phase < 3 ==> !s.writeEnable)
    ensures PhysicalOffset(s, 0x5555) < |s.save|
    ensures RunFrom(s, [UNLOCK1, UNLOCK2, Write(command, 0xA0), w]).save
         == if s.writeEnable then s.save[PhysicalOffset(s, 0x5555) := 0xAA] else s.save
  {
    hide SectorBase, Filled, Step, RunFrom;
    RunOfFour(s, UNLOCK1, UNLOCK2, Write(command, 0xA0), w);
    OffsetFits(s, 0x5555);
    BrokenStart(s);
    IdleIgnores(Step(s, UNLOCK1), UNLOCK2);
    IdleIgnores(Step(s, UNLOCK1), Write(command, 0xA0));
    IdleKeepsBytes(Step(s, UNLOCK1), w);
  }

  lemma BrokenStart(s: State)
    requires Sized(s) && 1 <= s.phase <= 3
    ensures Step(s, UNLOCK1).phase == 0
    ensures Step(s, UNLOCK1).save ==
      if s.phase == 3 && s.writeEnable && PhysicalOffset(s, 0x5555) < |s.save| then s.save[PhysicalOffset(s, 0x5555) := 0xAA] else s.save
  {
    hide SectorBase, Filled;
  }

  lemma IdleIgnores(s: State, w: Write)
    requires s.phase == 0 && w != UNLOCK1
    ensures Step(s, w) == s
  {
    hide Command, Extended;
  }

  lemma IdleKeepsBytes(s: State, w: Write)
    requires s.phase == 0
    ensures Step(s, w).save == s.save
  {
    hide Command, Extended;
  }

  /** Unlock, B0, bank: on the larger chip later accesses go to that bank; the smaller chip ignores it. */
  lemma BankSequence(s: State, command: u32, w: Write)
    requires Sized(s) && Idle(s)
    ensures RunFrom(s, [UNLOCK1, UNLOCK2, Write(command, 0xB0), w])
         == if s.kind == Flash128K then s.(bank := w.value % 2) else Step(s, w)
  {
    hide SectorBase, Filled, Step, RunFrom;
    RunOfFour(s, UNLOCK1, UNLOCK2, Write(command, 0xB0), w);
    UnlockSequence(s);
    CommandStep(s.(phase := 2), Write(command, 0xB0));
    if s.kind == Flash128K {
      ExtendedStep(s.(phase := 3, bankSelect := true), w);
    }
  }

  lemma RunOfSix(s: State, a: Write, b: Write, c: Write, d: Write, e: Write, f: Write)
    ensures RunFrom(s, [a, b, c, d, e, f]) == Step(Step(RunFrom(s, [a, b, c, d]), e), f)
  {
    hide Step;
    RunMore(s, [a, b, c, d], e);
    RunMore(s, [a, b, c, d, e], f);
    assert [a, b, c, d] + [e] == [a, b, c, d, e] && [a, b, c, d, e] + [f] == [a, b, c, d, e, f];
  }

  /** Unlock, 80, unlock, 30 or 10: exactly the 4 KiB sector addressed, or the whole chip, becomes FF. */
  lemma EraseSequence(s: State, command: u32, w: Write)
    requires Sized(s) && Idle(s) && (w.value == 0x10 || w.value == 0x30)
    ensures var t := RunFrom(s, [UNLOCK1, UNLOCK2, Write(command, 0x80), UNLOCK1, UNLOCK2, w]);
      && t == s.(save := t.save, dirty := true, eraseEnable := false)
      && |t.save| == |s.save|
      && forall o | 0 <= o < |s.save| ::
           t.save[o] == if w.value == 0x10 || InSector(s, w.address, o) then 0xFF else s.save[o]
  {
    hide SectorBase, Step, RunFrom, Filled;
    RunOfSix(s, UNLOCK1, UNLOCK2, Write(command, 0x80), UNLOCK1, UNLOCK2, w);
    RunOfFour(s, UNLOCK1, UNLOCK2, Write(command, 0x80), UNLOCK1);
    UnlockSequence(s);
    CommandStep(s.(phase := 2), Write(command, 0x80));
    UnlockSequence(s.(eraseEnable := true));
    var ready := s.(phase := 2, eraseEnable := true);
    EraseStep(ready, s, w);
  }

  lemma EraseStep(ready: State, s: State, w: Write)
    requires Sized(s) && ready == s.(phase := 2, eraseEnable := true) && s.phase == 0 && (w.value == 0x10 || w.value == 0x30)
    ensures var t := Step(ready, w);
      && t == s.(save := t.save, dirty := true, eraseEnable := false)
      && |t.save| == |s.save|
      && forall o | 0 <= o < |s.save| ::
           t.save[o] == if w.value == 0x10 || InSector(s, w.address, o) then 0xFF else s.save[o]
  {
  }

  /** A sector lies in the current bank, whole. */
  lemma SectorFits(s: State, address: u32)
    requires Sized(s)
    ensures SectorBase(s, address) + SECTOR <= |s.save|
    ensures forall a: nat | a < BANK && a / SECTOR == address / SECTOR % 0x10 :: InSector(s, address, PhysicalOffset(s, a))
  {
  }

  // ----- The chip itself -----

  class FlashChip {
    const kind: Kind
    const save: array<u8>
    var dirty: bool
    var phase: nat
    var chipId: bool
    var eraseEnable: bool
    var writeEnable: bool
    var bankSelect: bool
    var bank: nat

    function Current(): State
      reads this, save
    {
      State(kind, save[..], dirty, phase, chipId, eraseEnable, writeEnable, bankSelect, bank)
    }

    constructor (kind: Kind)
      ensures Sized(Current()) && Current() == Fresh(kind, save[..]) && fresh(save)
    {
      this.kind := kind;
      save := new u8[Size(kind)];
      dirty, phase, chipId, eraseEnable, writeEnable, bankSelect, bank := false, 0, false, false, false, false, 0;
    }

    /** std::fill */
    method FillRange(from: nat, until: nat)
      requires from <= until <= save.Length
      modifies save
      ensures save[..] == Filled(old(save[..]), from, until)
    {
      for i := from to until
        invariant forall k | 0 <= k < save.Length :: save[k] == if from <= k < i then 0xFF else old(save[k])
      {
        save[i] := 0xFF;
      }
    }

    method EraseChip()
      requires Sized(Current())
      modifies this, save
      ensures Current() == old(Current()).(save := Filled(old(save[..]), 0, save.Length), dirty := true, eraseEnable := false)
    {
      FillRange(0, save.Length);
      dirty, eraseEnable := true, false;
    }

    method EraseSector(address: u32)
      requires Sized(Current())
      modifies this, save
      ensures var base := old(SectorBase(Current(), address));
        Current() == old(Current()).(save := Filled(old(save[..]), base, base + SECTOR), dirty := true, eraseEnable := false)
    {
      hide Filled;
      SectorFits(Current(), address);
      var base := SectorBase(Current(), address);
      var end := Min(base + SECTOR, save.Length);
      FillRange(base, end);
      dirty, eraseEnable := true, false;
    }

    method HandleCommand(w: Write)
      requires Sized(Current())
      modifies this, save
      ensures Current() == Command(old(Current()), w)
    {
      hide Filled, SectorBase, Sized, Command;
      PhaseForgotten(Current(), w);
      phase := 0;
      if w.value in {0x90, 0xF0, 0x80} {
        SetMode(w);
      } else if w.value in {0xA0, 0xB0} {
        AwaitData(w);
      } else {
        HandleErase(w);
      }
    }

    /** Chip identification on or off, erase enable. */
    method SetMode(w: Write)
      requires phase == 0 && w.value in {0x90, 0xF0, 0x80}
      modifies this`chipId, this`eraseEnable
      ensures Current() == Command(old(Current()), w)
    {
      hide Filled, SectorBase;
      if w.value == 0x90 {
        chipId := true;
      } else if w.value == 0xF0 {
        chipId := false;
      } else {
        eraseEnable := true;
      }
    }

    /** Write enable and bank select wait for one more write. */
    method AwaitData(w: Write)
      requires phase == 0 && w.value in {0xA0, 0xB0}
      modifies this`writeEnable, this`bankSelect, this`phase
      ensures Current() == Command(old(Current()), w)
    {
      hide Filled, SectorBase;
      if w.value == 0xA0 {
        writeEnable, phase := true, 3;
      } else if kind == Flash128K {
        bankSelect, phase := true, 3;
      }
    }

    /** The erase commands; any other value is ignored. */
    method HandleErase(w: Write)
      requires Sized(Current()) && phase == 0 && w.value !in {0x90, 0xF0, 0x80, 0xA0, 0xB0}
      modifies this, save
      ensures Current() == Command(old(Current()), w)
    {
      hide Filled, SectorBase;
      if w.value == 0x10 && eraseEnable {
        EraseChip();
      } else if w.value == 0x30 && eraseEnable {
        EraseSector(w.address);
      }
    }

    method HandleExtended(w: Write)
      requires Sized(Current())
      modifies this, save
      ensures Current() == Extended(old(Current()), w)
    {
      phase := 0;
      if writeEnable {
        writeEnable := false;
        var offset := PhysicalOffset(Current(), w.address % BANK);
        if offset < save.Length {
          save[offset] := w.value;
          dirty := true;
        }
      } else if bankSelect {
        bankSelect := false;
        bank := w.value % 2;
      }
    }

    /** flash_write */
    method WriteByte(w: Write)
      requires Sized(Current())
      modifies this, save
      ensures Current() == Step(old(Current()), w)
    {
      hide Command, Extended;
      if phase == 0 {
        if w == UNLOCK1 {
          phase := 1;
        }
      } else if phase == 1 {
        phase := if w == UNLOCK2 then 2 else 0;
      } else if phase == 2 {
        HandleCommand(w);
      } else if phase == 3 {
        HandleExtended(w);
      }
    }
  }

  /** What a command does depends on no phase. */
  lemma PhaseForgotten(s: State, w: Write)
    ensures Command(s.(phase := 0), w) == Command(s, w)
    ensures Sized(s) ==> Sized(s.(phase := 0))
  {
    hide Filled;
  }
}
