/**
 The LCD clock (src/core/ppu.cpp, without drawing): lines of 1232 cycles, of which the last 225 are
 horizontal blanking, and frames of 228 lines, of which the last 68 are vertical blanking.
 */
module Lcd {
  import opened Basics
  import opened Irq

  const HDRAW_CYCLES: nat := 1007
  const HBLANK_CYCLES: nat := 225
  const LINE_CYCLES: nat := 1232
  const VISIBLE_LINES: nat := 160
  const FRAME_LINES: nat := 228
  const FRAME_CYCLES: nat := 280896

  /** DISPSTAT: three flags the hardware sets, three interrupt enables, two unused bits and the line to match. */
  datatype Dispstat = Dispstat(
    inVblank: bool, inHblank: bool, lineMatches: bool,
    vblankIrq: bool, hblankIrq: bool, vcountIrq: bool, unused: nat, target: u8)

  datatype LcdState = LcdState(
    hblank: bool, vblank: bool, vcount: nat, nextEvent: nat, stat: Dispstat,
    scanline: Option<nat>, frame: bool)

  /** An interrupt raised while the clock advanced. */
  datatype Raised = Raised(mask: Mask, when: nat)

  function UpdateFlags(s: LcdState): LcdState {
    s.(stat := s.stat.(inVblank := s.vblank, inHblank := s.hblank, lineMatches := s.stat.target == s.vcount))
  }

  const RESET_STAT := Dispstat(false, false, true, false, false, false, 0, 0)
  const RESET := LcdState(false, false, 0, HDRAW_CYCLES, RESET_STAT, None, false)

  /** A write to DISPSTAT leaves the three flags to the hardware. */
  function WriteStat(s: LcdState, value: Dispstat): LcdState {
    UpdateFlags(s.(stat := value))
  }

  function EnterHblank(s: LcdState): LcdState {
    UpdateFlags(s.(hblank := true, nextEvent := s.nextEvent + HBLANK_CYCLES,
                   scanline := if s.vblank then s.scanline else Some(s.vcount)))
  }

  function LeaveHblank(s: LcdState): LcdState {
    var vcount := (s.vcount + 1) % FRAME_LINES;
    UpdateFlags(s.(hblank := false, nextEvent := s.nextEvent + HDRAW_CYCLES, vcount := vcount,
                   vblank := if vcount == VISIBLE_LINES then true else if vcount == 0 then false else s.vblank,
                   frame := s.frame || vcount == VISIBLE_LINES))
  }

  /** The event at `s.nextEvent`. */
  function Event(s: LcdState): LcdState {
    if s.hblank then LeaveHblank(s) else EnterHblank(s)
  }

  function When(enabled: bool, mask: Mask, when: nat): seq<Raised> {
    if enabled then [Raised(mask, when)] else []
  }

  /** The interrupts of that event, in the order the code raises them. */
  function EventRaises(s: LcdState): seq<Raised> {
    if s.hblank then
      var vcount := (s.vcount + 1) % FRAME_LINES;
      When(vcount == VISIBLE_LINES && s.stat.vblankIrq, VBLANK, s.nextEvent)
      + When(vcount == s.stat.target && s.stat.vcountIrq, VCOUNT, s.nextEvent)
    else
      When(s.stat.hblankIrq, HBLANK, s.nextEvent)
  }

  function AdvanceClock(s: LcdState, now: nat): LcdState
    decreases now + 1 - s.nextEvent
  {
    if s.nextEvent <= now then AdvanceClock(Event(s), now) else s
  }

  function Raises(s: LcdState, now: nat): seq<Raised>
    decreases now + 1 - s.nextEvent
  {
    if s.nextEvent <= now then EventRaises(s) + Raises(Event(s), now) else []
  }

  /** What raising those interrupts, each one cycle late, does to the interrupt controller. */
  function RaiseEach(q: IrqState, raised: seq<Raised>): IrqState
    decreases |raised|
  {
    if raised == [] then q
    else
      var last := raised[|raised| - 1];
      RaiseDelayed(RaiseEach(q, raised[..|raised| - 1]), last.mask, last.when, 1)
  }

  // ----- The state as a function of time -----

  /** The line whose drawing or blanking ends with the next event. */
  function Line(s: LcdState): int { (s.nextEvent - 1) / LINE_CYCLES }

  /** The cycle of the latest event (0 before the first). */
  function LatestEvent(s: LcdState): int {
    s.nextEvent - (if s.hblank then HBLANK_CYCLES else HDRAW_CYCLES)
  }

  ghost predicate FlagsAgree(s: LcdState) {
    s == UpdateFlags(s)
  }

  /** The next event is a line's end or its blanking's start, and everything visible fits that line. */
  ghost predicate InPhase(s: LcdState) {
    && s.nextEvent > 0
    && s.nextEvent % LINE_CYCLES == (if s.hblank then 0 else HDRAW_CYCLES)
    && s.vcount == Line(s) % FRAME_LINES
    && s.vblank == (s.vcount >= VISIBLE_LINES)
    && FlagsAgree(s)
  }

  /** The clock stands where it should at cycle `t`. */
  ghost predicate InPhaseAt(s: LcdState, t: nat) {
    InPhase(s) && LatestEvent(s) <= t < s.nextEvent
  }

  /** Where the latest and the next event lie, by line and cycle within it. */
  lemma EventsByLine(s: LcdState)
    requires InPhase(s)
    ensures Line(s) >= 0
    ensures LatestEvent(s) == Line(s) * LINE_CYCLES + (if s.hblank then HDRAW_CYCLES else 0)
    ensures s.nextEvent == if s.hblank then (Line(s) + 1) * LINE_CYCLES else Line(s) * LINE_CYCLES + HDRAW_CYCLES
  {
  }

  lemma EventByLine(s: LcdState, line: nat)
    requires s.nextEvent == if s.hblank then (line + 1) * LINE_CYCLES else line * LINE_CYCLES + HDRAW_CYCLES
    ensures Line(s) == line
    ensures s.nextEvent % LINE_CYCLES == if s.hblank then 0 else HDRAW_CYCLES
  {
  }

  function NextLine(vcount: nat): nat { (vcount + 1) % FRAME_LINES }

  lemma NextLineCounts(line: nat)
    ensures NextLine(line % FRAME_LINES) == (line + 1) % FRAME_LINES
  {
  }

  lemma BlankingKeepsPhase(s: LcdState)
    requires InPhase(s) && !s.hblank
    ensures InPhase(EnterHblank(s)) && LatestEvent(EnterHblank(s)) == s.nextEvent && Line(EnterHblank(s)) == Line(s)
  {
    EventsByLine(s);
    EventByLine(EnterHblank(s), Line(s));
    hide Line;
  }

  lemma LineEndKeepsPhase(s: LcdState)
    requires InPhase(s) && s.hblank
    ensures InPhase(LeaveHblank(s)) && LatestEvent(LeaveHblank(s)) == s.nextEvent && Line(LeaveHblank(s)) == Line(s) + 1
  {
    EventsByLine(s);
    EventByLine(LeaveHblank(s), Line(s) + 1);
    NextLineCounts(Line(s));
    hide Line;
  }

  lemma EventKeepsPhase(s: LcdState)
    requires InPhase(s)
    ensures InPhase(Event(s)) && LatestEvent(Event(s)) == s.nextEvent
    ensures Line(Event(s)) == if s.hblank then Line(s) + 1 else Line(s)
  {
    hide InPhase, Line, LatestEvent, EnterHblank, LeaveHblank;
    if s.hblank {
      LineEndKeepsPhase(s);
    } else {
      BlankingKeepsPhase(s);
    }
  }

  lemma {:induction false} AdvanceKeepsPhase(s: LcdState, now: nat)
    requires InPhase(s) && LatestEvent(s) <= now
    ensures InPhaseAt(AdvanceClock(s, now), now)
    decreases now + 1 - s.nextEvent
  {
    hide InPhase, Event, Line;
    if s.nextEvent <= now {
      EventKeepsPhase(s);
      EventMoves(s);
      AdvanceKeepsPhase(Event(s), now);
    }
  }

  lemma BlankingRaises(s: LcdState)
    requires !s.hblank
    ensures EventRaises(s) == When(s.stat.hblankIrq, HBLANK, s.nextEvent)
  {
  }

  lemma EventMoves(s: LcdState)
    ensures Event(s).nextEvent > s.nextEvent
    ensures EnterHblank(s).nextEvent == s.nextEvent + HBLANK_CYCLES
    ensures LeaveHblank(s).nextEvent == s.nextEvent + HDRAW_CYCLES
  {
  }

  /** However it got there, the state at cycle t is given by t. */
  lemma PhaseIsTime(s: LcdState, t: nat)
    requires InPhaseAt(s, t)
    ensures s.vcount == (t / LINE_CYCLES) % FRAME_LINES
    ensures s.hblank <==> t % LINE_CYCLES >= HDRAW_CYCLES
    ensures s.vblank <==> s.vcount >= VISIBLE_LINES
    ensures s.stat.inVblank == s.vblank && s.stat.inHblank == s.hblank
    ensures s.stat.lineMatches <==> s.stat.target == s.vcount
    ensures s.nextEvent == t / LINE_CYCLES * LINE_CYCLES + (if s.hblank then LINE_CYCLES else HDRAW_CYCLES)
  {
    assert t / LINE_CYCLES == Line(s);
  }

  // ----- Batching -----

  lemma {:induction false} AdvanceIsIndependentOfBatching(s: LcdState, t1: nat, t2: nat)
    requires t1 <= t2
    ensures AdvanceClock(AdvanceClock(s, t1), t2) == AdvanceClock(s, t2)
    ensures Raises(s, t1) + Raises(AdvanceClock(s, t1), t2) == Raises(s, t2)
    decreases t1 + 1 - s.nextEvent
  {
    hide Event, EventRaises;
    if s.nextEvent <= t1 {
      EventMoves(s);
      AdvanceIsIndependentOfBatching(Event(s), t1, t2);
      ConcatAssociates(EventRaises(s), Raises(Event(s), t1), Raises(AdvanceClock(s, t1), t2));
    }
  }

  lemma {:induction false} AdvancePasses(s: LcdState, now: nat)
    ensures AdvanceClock(s, now).nextEvent > now
    ensures s.nextEvent > now ==> AdvanceClock(s, now) == s && Raises(s, now) == []
    decreases now + 1 - s.nextEvent
  {
    hide Event, EventRaises;
    if s.nextEvent <= now {
      EventMoves(s);
      AdvancePasses(Event(s), now);
    }
  }

  // ----- Whole runs -----

  /** What the rest of the machine does to the LCD clock. */
  datatype Access = AdvanceBy(cycles: nat) | WriteDispstat(value: Dispstat) | TakeScanline | TakeFrame

  function Apply(s: LcdState, now: nat, op: Access): (LcdState, nat) {
    match op
    case AdvanceBy(cycles) => (AdvanceClock(s, now + cycles), now + cycles)
    case WriteDispstat(value) => (WriteStat(s, value), now)
    case TakeScanline => (s.(scanline := None), now)
    case TakeFrame => (s.(frame := false), now)
  }

  function RunAll(ops: seq<Access>): (LcdState, nat) {
    if ops == [] then (RESET, 0)
    else
      var (s, now) := RunAll(ops[..|ops| - 1]);
      Apply(s, now, ops[|ops| - 1])
  }

  /** After any run from reset, split as it may be and with DISPSTAT written at will, time alone decides. */
  lemma {:induction false} RunsStayInPhase(ops: seq<Access>)
    ensures InPhaseAt(RunAll(ops).0, RunAll(ops).1)
  {
    if ops != [] {
      var (s, now) := RunAll(ops[..|ops| - 1]);
      RunsStayInPhase(ops[..|ops| - 1]);
      match ops[|ops| - 1] {
        case AdvanceBy(cycles) =>
          AdvanceKeepsPhase(s, now + cycles);
        case _ =>
      }
    }
  }

  // ----- Interrupts -----

  /** The interrupts due at cycle c with this DISPSTAT. */
  ghost predicate Due(stat: Dispstat, r: Raised) {
    || (r.mask == HBLANK && stat.hblankIrq && r.when % LINE_CYCLES == HDRAW_CYCLES)
    || (r.mask == VBLANK && stat.vblankIrq && r.when % FRAME_CYCLES == VISIBLE_LINES * LINE_CYCLES)
    || (r.mask == VCOUNT && stat.vcountIrq && r.when > 0 && r.when % LINE_CYCLES == 0
        && (r.when / LINE_CYCLES) % FRAME_LINES == stat.target)
  }

  lemma FrameArithmetic(t: nat)
    ensures t % FRAME_CYCLES == VISIBLE_LINES * LINE_CYCLES
         <==> t % LINE_CYCLES == 0 && (t / LINE_CYCLES) % FRAME_LINES == VISIBLE_LINES
  {
    var k, f := t / LINE_CYCLES, t / FRAME_CYCLES;
    assert k / FRAME_LINES == f;
  }

  lemma MasksDiffer()
    ensures VBLANK != HBLANK && VBLANK != VCOUNT && HBLANK != VCOUNT
  {
    assert 0 in VBLANK && 1 in HBLANK && 2 in VCOUNT;
  }

  lemma InWhen(enabled: bool, mask: Mask, when: nat, r: Raised)
    ensures r in When(enabled, mask, when) <==> enabled && r == Raised(mask, when)
  {
  }

  /** Where in its line the next event lies, and which line begins with it. */
  lemma NextEventInLine(s: LcdState)
    requires InPhase(s)
    ensures s.nextEvent > 0 && s.nextEvent % LINE_CYCLES == if s.hblank then 0 else HDRAW_CYCLES
    ensures s.hblank ==> NextLine(s.vcount) == (s.nextEvent / LINE_CYCLES) % FRAME_LINES
  {
    hide FlagsAgree;
    EventsByLine(s);
    if s.hblank {
      NextLineCounts(Line(s));
      assert s.nextEvent / LINE_CYCLES == Line(s) + 1;
    }
  }

  lemma EventRaisesExact(s: LcdState, r: Raised)
    requires InPhase(s)
    ensures r in EventRaises(s) <==> r.when == s.nextEvent && Due(s.stat, r)
  {
    hide When, InPhase, NextLine;
    MasksDiffer();
    FrameArithmetic(s.nextEvent);
    NextEventInLine(s);
    if s.hblank {
      RaisesAtLineEnd(s);
      hide EventRaises;
      InWhen(NextLine(s.vcount) == VISIBLE_LINES && s.stat.vblankIrq, VBLANK, s.nextEvent, r);
      InWhen(NextLine(s.vcount) == s.stat.target && s.stat.vcountIrq, VCOUNT, s.nextEvent, r);
    } else {
      BlankingRaises(s);
      hide EventRaises;
      InWhen(s.stat.hblankIrq, HBLANK, s.nextEvent, r);
    }
  }

  /** No event falls strictly between two consecutive ones, so nothing is due there. */
  lemma NothingDueBetween(s: LcdState, r: Raised)
    requires InPhase(s) && s.nextEvent < r.when < Event(s).nextEvent
    ensures !Due(s.stat, r)
  {
    hide FlagsAgree;
    FrameArithmetic(r.when);
    if s.hblank {
      assert r.when / LINE_CYCLES == s.nextEvent / LINE_CYCLES;
    } else {
      assert r.when / LINE_CYCLES == s.nextEvent / LINE_CYCLES;
    }
  }

  /**
   While DISPSTAT is left alone, exactly the interrupts due between the clock's next event and `now` are
   raised: HBlank on every line, VBlank once a frame, VCount on the chosen line.
   */
  lemma {:induction false} RaisesExact(s: LcdState, now: nat, r: Raised)
    requires InPhase(s)
    ensures r in Raises(s, now) <==> s.nextEvent <= r.when <= now && Due(s.stat, r)
    decreases now + 1 - s.nextEvent
  {
    hide InPhase, EventRaises, Due;
    if s.nextEvent <= now {
      EventKeepsPhase(s);
      EventMoves(s);
      EventKeepsEnables(s, r);
      EventRaisesExact(s, r);
      RaisesExact(Event(s), now, r);
      if s.nextEvent < r.when < Event(s).nextEvent {
        NothingDueBetween(s, r);
      }
    }
  }

  // ----- Interrupts over whole runs -----

  /** The interrupts raised in a run from reset. */
  function RaisedIn(ops: seq<Access>): seq<Raised> {
    if ops == [] then []
    else
      var front, op := ops[..|ops| - 1], ops[|ops| - 1];
      var (s, now) := RunAll(front);
      RaisedIn(front) + (if op.AdvanceBy? then Raises(s, now + op.cycles) else [])
  }

  /** DISPSTAT as it was when the clock passed cycle c; None if it has not. */
  function StatAt(ops: seq<Access>, c: nat): Option<Dispstat> {
    if ops == [] then None
    else
      var front, op := ops[..|ops| - 1], ops[|ops| - 1];
      var (s, now) := RunAll(front);
      if op.AdvanceBy? && now < c <= now + op.cycles then Some(s.stat) else StatAt(front, c)
  }

  lemma {:induction false} PassedIffSome(ops: seq<Access>, c: nat)
    ensures StatAt(ops, c).Some? <==> 0 < c <= RunAll(ops).1
  {
    if ops != [] {
      PassedIffSome(ops[..|ops| - 1], c);
    }
  }

  /** Nothing is due between the latest event and the next. */
  lemma NothingDueBefore(s: LcdState, t: nat, r: Raised)
    requires InPhaseAt(s, t) && t < r.when < s.nextEvent
    ensures !Due(s.stat, r)
  {
    hide FlagsAgree;
    EventsByLine(s);
    FrameArithmetic(r.when);
    var line := Line(s);
    assert line * LINE_CYCLES < r.when < (line + 1) * LINE_CYCLES;
    assert r.when / LINE_CYCLES == line && r.when % LINE_CYCLES == r.when - line * LINE_CYCLES;
  }

  lemma AdvanceRaises(s: LcdState, t: nat, now: nat, r: Raised)
    requires InPhaseAt(s, t) && t <= now
    ensures r in Raises(s, now) <==> t < r.when <= now && Due(s.stat, r)
  {
    hide Due, Raises, FlagsAgree, Line;
    RaisesExact(s, now, r);
    if t < r.when < s.nextEvent {
      NothingDueBefore(s, t, r);
    }
  }

  /**
   Over any run from reset, however it is split and whenever DISPSTAT is written, an interrupt is raised for a
   cycle exactly if the clock has passed it and DISPSTAT then asked for it.
   */
  lemma {:induction false} RunRaisesExactly(ops: seq<Access>, r: Raised)
    ensures r in RaisedIn(ops) <==> StatAt(ops, r.when).Some? && Due(StatAt(ops, r.when).value, r)
  {
    hide Due, Raises, InPhaseAt;
    if ops != [] {
      var front, op := ops[..|ops| - 1], ops[|ops| - 1];
      var (s, now) := RunAll(front);
      RunRaisesExactly(front, r);
      RunsStayInPhase(front);
      PassedIffSome(front, r.when);
      if op.AdvanceBy? {
        AdvanceRaises(s, now, now + op.cycles, r);
      }
    }
  }

  lemma EventKeepsEnables(s: LcdState, r: Raised)
    ensures Due(Event(s).stat, r) <==> Due(s.stat, r)
  {
  }

  /** Time-ordered, so that the delay pipeline sees them as they happened. */
  lemma {:induction false} RaisesInOrder(s: LcdState, now: nat, i: nat, j: nat)
    requires i < j < |Raises(s, now)|
    ensures s.nextEvent <= Raises(s, now)[i].when <= Raises(s, now)[j].when
    decreases now + 1 - s.nextEvent
  {
    hide Event;
    var n := |EventRaises(s)|;
    EventMoves(s);
    if n <= i {
      RaisesInOrder(Event(s), now, i - n, j - n);
    } else if n <= j {
      RaisesNotEarlier(Event(s), now, j - n);
    }
  }

  lemma {:induction false} RaisesNotEarlier(s: LcdState, now: nat, i: nat)
    requires i < |Raises(s, now)|
    ensures s.nextEvent <= Raises(s, now)[i].when
    decreases now + 1 - s.nextEvent
  {
    hide Event;
    var n := |EventRaises(s)|;
    EventMoves(s);
    if n <= i {
      RaisesNotEarlier(Event(s), now, i - n);
    }
  }

  // ----- Lines and frames handed to the renderer -----

  /** How many lines have begun their blanking by cycle t. */
  function HblanksBy(t: nat): nat { (t + HBLANK_CYCLES) / LINE_CYCLES }

  /** How many vertical blankings have begun by cycle t. */
  function VblanksBy(t: nat): nat { (t + (FRAME_LINES - VISIBLE_LINES) * LINE_CYCLES) / FRAME_CYCLES }

  /** The place in its frame of the k-th line since reset. */
  function LineInFrame(k: nat): nat { k % FRAME_LINES }

  /** The visible ones among lines from, from + 1, ..., until - 1, counted since reset. */
  function VisibleLines(from: nat, until: nat): seq<nat>
    decreases until
  {
    if until <= from then []
    else
      var line := LineInFrame(until - 1);
      VisibleLines(from, until - 1) + (if line < VISIBLE_LINES then [line] else [])
  }

  function LastOf(lines: seq<nat>, otherwise: Option<nat>): Option<nat> {
    if lines == [] then otherwise else Some(lines[|lines| - 1])
  }

  lemma {:induction false} VisibleLinesSplit(a: nat, b: nat, c: nat)
    requires a <= b <= c
    ensures VisibleLines(a, c) == VisibleLines(a, b) + VisibleLines(b, c)
    decreases c
  {
    if b < c {
      VisibleLinesSplit(a, b, c - 1);
      var line := LineInFrame(c - 1);
      ConcatAssociates(VisibleLines(a, b), VisibleLines(b, c - 1), if line < VISIBLE_LINES then [line] else []);
    }
  }

  lemma CountsByLine(line: nat, dot: nat)
    requires dot < LINE_CYCLES
    ensures HblanksBy(line * LINE_CYCLES + dot) == if dot >= HDRAW_CYCLES then line + 1 else line
    ensures VblanksBy(line * LINE_CYCLES + dot) == (line + (FRAME_LINES - VISIBLE_LINES)) / FRAME_LINES
  {
    var lines := line + (FRAME_LINES - VISIBLE_LINES);
    var frames := lines / FRAME_LINES;
    assert 0 <= lines - frames * FRAME_LINES < FRAME_LINES;
    assert line * LINE_CYCLES + dot + (FRAME_LINES - VISIBLE_LINES) * LINE_CYCLES == lines * LINE_CYCLES + dot;
    assert 0 <= lines * LINE_CYCLES + dot - frames * FRAME_CYCLES < FRAME_CYCLES;
  }

  lemma FrameBegins(line: nat)
    ensures (line + 1 + (FRAME_LINES - VISIBLE_LINES)) / FRAME_LINES
         == (line + (FRAME_LINES - VISIBLE_LINES)) / FRAME_LINES
            + (if (line % FRAME_LINES + 1) % FRAME_LINES == VISIBLE_LINES then 1 else 0)
  {
  }

  lemma OneLine(line: nat)
    ensures VisibleLines(line, line) == []
    ensures VisibleLines(line, line + 1) == if line % FRAME_LINES < VISIBLE_LINES then [line % FRAME_LINES] else []
  {
  }

  /** One event counts one blanking, or none, and offers its line. */
  lemma EventOffers(s: LcdState)
    requires InPhase(s) && LatestEvent(s) >= 0
    ensures HblanksBy(LatestEvent(s)) <= HblanksBy(s.nextEvent)
    ensures Event(s).scanline == LastOf(VisibleLines(HblanksBy(LatestEvent(s)), HblanksBy(s.nextEvent)), s.scanline)
    ensures Event(s).frame <==> s.frame || VblanksBy(s.nextEvent) > VblanksBy(LatestEvent(s))
    ensures VblanksBy(s.nextEvent) >= VblanksBy(LatestEvent(s))
  {
    hide Line, HblanksBy, VblanksBy, FlagsAgree, VisibleLines;
    EventsByLine(s);
    var line := Line(s);
    CountsByLine(line, 0);
    CountsByLine(line, HDRAW_CYCLES);
    CountsByLine(line + 1, 0);
    OneLine(line);
    OneLine(line + 1);
    FrameBegins(line);
  }

  lemma LastOfSplit(a: seq<nat>, b: seq<nat>, otherwise: Option<nat>)
    ensures LastOf(a + b, otherwise) == LastOf(b, LastOf(a, otherwise))
  {
  }

  lemma NoEventNoCount(s: LcdState, t: nat)
    requires InPhaseAt(s, t) && LatestEvent(s) >= 0
    ensures HblanksBy(t) == HblanksBy(LatestEvent(s)) && VblanksBy(t) == VblanksBy(LatestEvent(s))
  {
    hide FlagsAgree, HblanksBy, VblanksBy, Line;
    EventsByLine(s);
    CountsByLine(Line(s), t - Line(s) * LINE_CYCLES);
    CountsByLine(Line(s), LatestEvent(s) - Line(s) * LINE_CYCLES);
  }

  /**
   An advance offers the last visible line whose blanking began meanwhile, and reports a frame iff a
   vertical blanking did: earlier lines of the same advance are overwritten before anyone can take them.
   */
  lemma {:induction false} AdvanceOffers(s: LcdState, now: nat)
    requires InPhase(s) && 0 <= LatestEvent(s) <= now
    ensures HblanksBy(LatestEvent(s)) <= HblanksBy(now)
    ensures AdvanceClock(s, now).scanline == LastOf(VisibleLines(HblanksBy(LatestEvent(s)), HblanksBy(now)), s.scanline)
    ensures AdvanceClock(s, now).frame <==> s.frame || VblanksBy(now) > VblanksBy(LatestEvent(s))
    ensures VblanksBy(now) >= VblanksBy(LatestEvent(s))
    decreases now + 1 - s.nextEvent
  {
    hide InPhase, Event, HblanksBy, VblanksBy, LastOf;
    var before := HblanksBy(LatestEvent(s));
    if s.nextEvent <= now {
      EventMoves(s);
      EventKeepsPhase(s);
      EventOffers(s);
      AdvanceOffers(Event(s), now);
      VisibleLinesSplit(before, HblanksBy(s.nextEvent), HblanksBy(now));
      LastOfSplit(VisibleLines(before, HblanksBy(s.nextEvent)), VisibleLines(HblanksBy(s.nextEvent), HblanksBy(now)), s.scanline);
    } else {
      NoEventNoCount(s, now);
      NothingOffered(before, s.scanline);
    }
  }

  lemma NothingOffered(from: nat, otherwise: Option<nat>)
    ensures LastOf(VisibleLines(from, from), otherwise) == otherwise
  {
  }

  /** The service loop advances the clock and at once takes the line on offer. */
  function Service(s: LcdState, now: nat): (LcdState, seq<nat>) {
    var after := AdvanceClock(s, now);
    (after.(scanline := None), if after.scanline.Some? then [after.scanline.value] else [])
  }

  function Services(s: LcdState, times: seq<nat>): (LcdState, seq<nat>)
    decreases |times|
  {
    if times == [] then (s, [])
    else
      var (before, lines) := Services(s, times[..|times| - 1]);
      var (after, more) := Service(before, times[|times| - 1]);
      (after, lines + more)
  }

  /** When the last service took place (`start` if there was none). */
  function LastTime(start: nat, times: seq<nat>): nat {
    if times == [] then start else times[|times| - 1]
  }

  /** Times go forward, and at most one line begins its blanking between two services. */
  ghost predicate ServedInTime(start: nat, times: seq<nat>)
    decreases |times|
  {
    times == []
    || (var earlier := times[..|times| - 1];
        && ServedInTime(start, earlier)
        && LastTime(start, earlier) <= times[|times| - 1]
        && HblanksBy(times[|times| - 1]) <= HblanksBy(LastTime(start, earlier)) + 1)
  }

  lemma OneOffer(from: nat, until: nat)
    requires from <= until <= from + 1
    ensures VisibleLines(from, until) == (var last := LastOf(VisibleLines(from, until), None); if last.Some? then [last.value] else [])
  {
    assert VisibleLines(from, from) == [];
  }

  lemma LastTimeBounded(start: nat, times: seq<nat>)
    requires ServedInTime(start, times)
    ensures start <= LastTime(start, times) && HblanksBy(start) <= HblanksBy(LastTime(start, times))
    decreases |times|
  {
    if times != [] {
      LastTimeBounded(start, times[..|times| - 1]);
    }
  }

  lemma HblanksMonotone(a: nat, b: nat)
    requires a <= b
    ensures HblanksBy(a) <= HblanksBy(b)
  {
  }

  lemma ServiceEmits(s: LcdState, before: nat, now: nat)
    requires InPhaseAt(s, before) && LatestEvent(s) >= 0 && s.scanline == None
    requires before <= now && HblanksBy(now) <= HblanksBy(before) + 1
    ensures Service(s, now).1 == VisibleLines(HblanksBy(before), HblanksBy(now))
    ensures InPhaseAt(Service(s, now).0, now) && LatestEvent(Service(s, now).0) >= 0
  {
    hide HblanksBy, LastOf, Event, VisibleLines;
    NoEventNoCount(s, before);
    HblanksMonotone(before, now);
    AdvanceOffers(s, now);
    AdvanceKeepsPhase(s, now);
    LatestEventStays(s, now);
    OneOffer(HblanksBy(before), HblanksBy(now));
  }

  lemma {:induction false} LatestEventStays(s: LcdState, now: nat)
    requires LatestEvent(s) >= 0
    ensures LatestEvent(AdvanceClock(s, now)) >= 0
    decreases now + 1 - s.nextEvent
  {
    if s.nextEvent <= now {
      LatestEventStays(Event(s), now);
    }
  }

  /** Served in time, every visible line that begins its blanking is emitted exactly once and in order. */
  lemma {:induction false} EveryLineEmittedOnce(s: LcdState, start: nat, times: seq<nat>)
    requires InPhaseAt(s, start) && LatestEvent(s) >= 0 && s.scanline == None
    requires ServedInTime(start, times)
    ensures var (after, lines) := Services(s, times);
      && lines == VisibleLines(HblanksBy(start), HblanksBy(LastTime(start, times)))
      && InPhaseAt(after, LastTime(start, times)) && LatestEvent(after) >= 0 && after.scanline == None
    decreases |times|
  {
    hide HblanksBy, FlagsAgree, LastOf;
    if times == [] {
      assert VisibleLines(HblanksBy(start), HblanksBy(start)) == [];
    } else {
      var earlier, now := times[..|times| - 1], times[|times| - 1];
      var mid := LastTime(start, earlier);
      EveryLineEmittedOnce(s, start, earlier);
      LastTimeBounded(start, earlier);
      LastTimeBounded(start, times);
      ServiceEmits(Services(s, earlier).0, mid, now);
      HblanksMonotone(mid, now);
      VisibleLinesSplit(HblanksBy(start), HblanksBy(mid), HblanksBy(now));
    }
  }

  // ----- What has been rendered -----

  /**
   At cycle t the LCD has been serviced and its line taken; and, if it has always been on time, what has been
   rendered since reset is every visible line that began its blanking, once and in order.
   */
  ghost predicate Rendering(s: LcdState, t: nat, onTime: bool, rendered: seq<nat>) {
    && InPhaseAt(s, t) && LatestEvent(s) >= 0 && s.scanline == None
    && (onTime ==> rendered == VisibleLines(0, HblanksBy(t)))
  }

  /** A service at `now` is on time: since the one at t at most one line began its blanking. */
  predicate OnTime(t: nat, now: nat) { HblanksBy(now) <= HblanksBy(t) + 1 }

  lemma NothingRendered()
    ensures Rendering(RESET, 0, true, [])
  {
  }

  /** A service on time, which renders the line on offer, leaves nothing out. */
  lemma RenderingGoesOn(s: LcdState, t: nat, onTime: bool, rendered: seq<nat>, now: nat, skip: bool)
    requires Rendering(s, t, onTime, rendered) && t <= now
    ensures var after := AdvanceClock(s, now);
      Rendering(after.(scanline := None), now, onTime && !skip && OnTime(t, now),
                rendered + (if after.scanline.Some? && !skip then [after.scanline.value] else []))
  {
    hide InPhaseAt, LatestEvent, AdvanceClock, HblanksBy, VisibleLines;
    PhaseBegan(s, t);
    AdvanceKeepsPhase(s, now);
    LatestEventStays(s, now);
    TakingKeepsPhase(AdvanceClock(s, now), now);
    if onTime && !skip && OnTime(t, now) {
      ServiceEmits(s, t, now);
      HblanksMonotone(0, t);
      HblanksMonotone(t, now);
      assert HblanksBy(0) == 0 by { NoBlankingYet(); }
      VisibleLinesSplit(0, HblanksBy(t), HblanksBy(now));
    }
  }

  lemma PhaseBegan(s: LcdState, t: nat)
    requires InPhaseAt(s, t)
    ensures InPhase(s) && LatestEvent(s) <= t
  {
  }

  lemma TakingKeepsPhase(s: LcdState, t: nat)
    requires InPhaseAt(s, t)
    ensures InPhaseAt(s.(scanline := None), t) && LatestEvent(s.(scanline := None)) == LatestEvent(s)
  {
  }

  lemma NoBlankingYet()
    ensures HblanksBy(0) == 0
  {
  }

  lemma RenderingIgnoresDispstat(s: LcdState, t: nat, onTime: bool, rendered: seq<nat>, value: Dispstat)
    requires Rendering(s, t, onTime, rendered)
    ensures Rendering(WriteStat(s, value), t, onTime, rendered) && WriteStat(s, value).nextEvent == s.nextEvent
  {
    hide HblanksBy, VisibleLines;
  }

  /** On time is whoever comes no more than a line after the last service, or 1007 cycles after the next event. */
  lemma SoonIsOnTime(s: LcdState, t: nat, onTime: bool, rendered: seq<nat>, now: nat)
    requires Rendering(s, t, onTime, rendered) && t <= now
    requires now <= t + LINE_CYCLES || now <= s.nextEvent + HDRAW_CYCLES
    ensures OnTime(t, now)
  {
    hide VisibleLines, FlagsAgree, HblanksBy, Line;
    if now <= t + LINE_CYCLES {
      WithinLine(t, now);
    } else {
      EventsByLine(s);
      NoEventNoCount(s, t);
      CountsByLine(Line(s), LatestEvent(s) - Line(s) * LINE_CYCLES);
      HblanksMonotone(now, s.nextEvent + HDRAW_CYCLES);
      CountsByLine(Line(s) + 1, 2 * HDRAW_CYCLES - LINE_CYCLES);
    }
  }

  lemma WithinLine(t: nat, now: nat)
    requires t <= now <= t + LINE_CYCLES
    ensures HblanksBy(now) <= HblanksBy(t) + 1
  {
  }

  /** How many of the lines 0, 1, ..., n - 1 since reset are line `line` of their frame. */
  function CountBefore(line: nat, n: nat): int { (n + FRAME_LINES - 1 - line) / FRAME_LINES }

  lemma CountStep(line: nat, last: nat)
    requires line < VISIBLE_LINES
    ensures CountBefore(line, last + 1) == CountBefore(line, last) + (if LineInFrame(last) == line then 1 else 0)
  {
  }

  lemma SnocCount(lines: seq<nat>, last: nat, line: nat)
    ensures multiset(lines + [last])[line] == multiset(lines)[line] + (if last == line then 1 else 0)
  {
    assert multiset(lines + [last]) == multiset(lines) + multiset{last};
  }

  /** How often `line` occurs in `lines`. */
  function Occurrences(lines: seq<nat>, line: nat): nat { multiset(lines)[line] }

  lemma NoOccurrence(line: nat)
    ensures Occurrences([], line) == 0
  {
  }

  lemma VisibleLinesStep(line: nat, from: nat, last: nat)
    requires from <= last && line < VISIBLE_LINES
    ensures Occurrences(VisibleLines(from, last + 1), line)
         == Occurrences(VisibleLines(from, last), line) + (if LineInFrame(last) == line then 1 else 0)
  {
    hide LineInFrame;
    SnocCount(VisibleLines(from, last), LineInFrame(last), line);
  }

  lemma {:induction false} VisibleLinesCount(line: nat, from: nat, until: nat)
    requires from <= until && line < VISIBLE_LINES
    ensures Occurrences(VisibleLines(from, until), line) == CountBefore(line, until) - CountBefore(line, from)
    decreases until
  {
    hide *;
    if from < until {
      var last := until - 1;
      VisibleLinesCount(line, from, last);
      CountStep(line, last);
      VisibleLinesStep(line, from, last);
    } else {
      OneLine(from);
      NoOccurrence(line);
    }
  }

  lemma {:induction false} OnlyVisibleLines(line: nat, from: nat, until: nat)
    requires line in VisibleLines(from, until)
    ensures line < VISIBLE_LINES
    decreases until
  {
    if from < until && line in VisibleLines(from, until - 1) {
      OnlyVisibleLines(line, from, until - 1);
    }
  }

  /** In any 280896 consecutive cycles each visible line begins its blanking exactly once, and no other does. */
  lemma EveryFrameHasEveryLine(t: nat, line: nat)
    ensures Occurrences(VisibleLines(HblanksBy(t), HblanksBy(t + FRAME_CYCLES)), line) == if line < VISIBLE_LINES then 1 else 0
    ensures VblanksBy(t + FRAME_CYCLES) == VblanksBy(t) + 1
  {
    var from, until := HblanksBy(t), HblanksBy(t + FRAME_CYCLES);
    assert until == from + FRAME_LINES;
    if line < VISIBLE_LINES {
      VisibleLinesCount(line, from, until);
    } else if line in VisibleLines(from, until) {
      OnlyVisibleLines(line, from, until);
    }
  }

  // ----- The unit itself -----

  lemma RaiseEachConcat(q: IrqState, a: seq<Raised>, b: seq<Raised>)
    ensures RaiseEach(q, a + b) == RaiseEach(RaiseEach(q, a), b)
    decreases |b|
  {
    if b == [] {
      assert a + b == a;
    } else {
      assert (a + b)[..|a + b| - 1] == a + b[..|b| - 1];
      RaiseEachConcat(q, a, b[..|b| - 1]);
    }
  }

  lemma RaiseNone(q: IrqState)
    ensures RaiseEach(q, []) == q
  {
  }

  lemma RaiseOne(q: IrqState, enabled: bool, mask: Mask, when: nat)
    ensures RaiseEach(q, When(enabled, mask, when)) == if enabled then RaiseDelayed(q, mask, when, 1) else q
  {
    assert [Raised(mask, when)][..0] == [];
  }

  lemma RaisesAtLineEnd(s: LcdState)
    requires s.hblank
    ensures EventRaises(s) == When(NextLine(s.vcount) == VISIBLE_LINES && s.stat.vblankIrq, VBLANK, s.nextEvent)
      + When(NextLine(s.vcount) == s.stat.target && s.stat.vcountIrq, VCOUNT, s.nextEvent)
  {
  }

  /** What the end of a line leaves, part by part. */
  lemma LineEnds(s: LcdState, t: LcdState)
    requires !t.hblank && t.vcount == NextLine(s.vcount) && t.nextEvent == s.nextEvent && t.scanline == s.scanline
    requires t.vblank == if t.vcount == VISIBLE_LINES then true else if t.vcount == 0 then false else s.vblank
    requires t.frame <==> s.frame || t.vcount == VISIBLE_LINES
    requires t == UpdateFlags(t)
    requires t.stat == s.stat.(inVblank := t.stat.inVblank, inHblank := t.stat.inHblank, lineMatches := t.stat.lineMatches)
    ensures t == LeaveHblank(s).(nextEvent := s.nextEvent)
  {
  }

  class LcdUnit {
    var hblank: bool
    var vblank: bool
    var vcount: nat
    var nextEvent: nat
    var stat: Dispstat
    var scanline: Option<nat>
    var frame: bool

    function State(): LcdState
      reads this
    {
      LcdState(hblank, vblank, vcount, nextEvent, stat, scanline, frame)
    }

    constructor ()
      ensures State() == RESET
    {
      hblank, vblank, vcount, nextEvent, stat := false, false, 0, HDRAW_CYCLES, RESET_STAT;
      scanline, frame := None, false;
    }

    method UpdateDispstatFlags()
      modifies this`stat
      ensures State() == UpdateFlags(old(State()))
    {
      stat := stat.(inVblank := vblank, inHblank := hblank, lineMatches := stat.target == vcount);
    }

    /** The DISPSTAT case of write_register. */
    method WriteDispstat(value: Dispstat)
      modifies this`stat
      ensures State() == WriteStat(old(State()), value)
    {
      stat := value.(inVblank := stat.inVblank, inHblank := stat.inHblank, lineMatches := stat.lineMatches);
      UpdateDispstatFlags();
    }

    method EnterHorizontalBlank(irq: IrqController, now: nat)
      modifies this`hblank, this`stat, this`scanline, irq
      ensures irq.State() == RaiseEach(old(irq.State()), When(old(stat).hblankIrq, HBLANK, now))
      ensures State() == EnterHblank(old(State())).(nextEvent := old(nextEvent))
    {
      hide RaiseEach, RaiseDelayed;
      RaiseOne(irq.State(), stat.hblankIrq, HBLANK, now);
      hblank := true;
      UpdateDispstatFlags();
      if !vblank {
        scanline := Some(vcount);
      }
      if stat.hblankIrq {
        irq.Raise(HBLANK, now, 1);
      }
    }

    method EnterVerticalBlank(irq: IrqController, now: nat)
      modifies this`vblank, this`stat, this`frame, irq
      ensures irq.State() == RaiseEach(old(irq.State()), When(old(stat).vblankIrq, VBLANK, now))
      ensures State() == UpdateFlags(old(State()).(vblank := true, frame := true))
    {
      hide RaiseEach, RaiseDelayed;
      RaiseOne(irq.State(), stat.vblankIrq, VBLANK, now);
      vblank, frame := true, true;
      UpdateDispstatFlags();
      if stat.vblankIrq {
        irq.Raise(VBLANK, now, 1);
      }
    }

    method LeaveVerticalBlank()
      modifies this`vblank, this`stat
      ensures State() == UpdateFlags(old(State()).(vblank := false))
    {
      vblank := false;
      UpdateDispstatFlags();
    }

    method HandleVcountCompare(irq: IrqController, now: nat)
      modifies this`stat, irq
      ensures irq.State() == RaiseEach(old(irq.State()), When(vcount == old(stat).target && old(stat).vcountIrq, VCOUNT, now))
      ensures State() == old(State()).(stat := old(stat).(lineMatches := old(stat).target == vcount))
    {
      hide RaiseEach, RaiseDelayed;
      RaiseOne(irq.State(), vcount == stat.target && stat.vcountIrq, VCOUNT, now);
      if stat.target == vcount {
        stat := stat.(lineMatches := true);
        if stat.vcountIrq {
          irq.Raise(VCOUNT, now, 1);
        }
      } else {
        stat := stat.(lineMatches := false);
      }
    }

    /** The next line begins, and with it perhaps the vertical blanking, or its end. */
    method BeginLine(irq: IrqController, now: nat)
      modifies this`hblank, this`vblank, this`vcount, this`stat, this`frame, irq
      ensures irq.State() == RaiseEach(old(irq.State()), When(vcount == VISIBLE_LINES && old(stat).vblankIrq, VBLANK, now))
      ensures !hblank && vcount == NextLine(old(vcount)) && (frame <==> old(frame) || vcount == VISIBLE_LINES)
      ensures vblank == if vcount == VISIBLE_LINES then true else if vcount == 0 then false else old(vblank)
      ensures stat == old(stat).(inVblank := stat.inVblank, inHblank := stat.inHblank, lineMatches := stat.lineMatches)
    {
      hide RaiseEach, RaiseDelayed, When;
      RaiseOne(irq.State(), false, VBLANK, now);
      hblank := false;
      vcount := (vcount + 1) % FRAME_LINES;
      if vcount == VISIBLE_LINES {
        EnterVerticalBlank(irq, now);
      } else if vcount == 0 {
        LeaveVerticalBlank();
      }
    }

    method LeaveHorizontalBlank(irq: IrqController, now: nat)
      requires hblank
      modifies this`hblank, this`vblank, this`vcount, this`stat, this`frame, irq
      ensures old(nextEvent) == now ==> irq.State() == RaiseEach(old(irq.State()), EventRaises(old(State())))
      ensures State() == LeaveHblank(old(State())).(nextEvent := old(nextEvent))
    {
      hide RaiseEach, RaiseDelayed, When, LeaveHblank, EventRaises;
      ghost var s, next := State(), NextLine(vcount);
      RaisesAtLineEnd(s);
      RaiseEachConcat(irq.State(), When(next == VISIBLE_LINES && stat.vblankIrq, VBLANK, nextEvent),
                      When(next == stat.target && stat.vcountIrq, VCOUNT, nextEvent));
      BeginLine(irq, now);
      UpdateDispstatFlags();
      ghost var updated := State();
      HandleVcountCompare(irq, now);
      assert State() == updated;
      LineEnds(s, State());
    }

    /** advance_to */
    method AdvanceTo(now: nat, irq: IrqController)
      modifies this, irq
      ensures State() == AdvanceClock(old(State()), now)
      ensures irq.State() == RaiseEach(old(irq.State()), Raises(old(State()), now))
    {
      hide RaiseEach, EventRaises, EnterHblank, LeaveHblank;
      ghost var q, s := irq.State(), State();
      ghost var raised: seq<Raised> := [];
      RaiseNone(q);
      while nextEvent <= now
        invariant AdvanceClock(State(), now) == AdvanceClock(s, now)
        invariant raised + Raises(State(), now) == Raises(s, now)
        invariant irq.State() == RaiseEach(q, raised)
        decreases now + 1 - nextEvent
      {
        ghost var before := State();
        EventMoves(before);
        RaiseEachConcat(q, raised, EventRaises(before));
        ConcatAssociates(raised, EventRaises(before), Raises(Event(before), now));
        if !hblank {
          BlankingRaises(before);
          EnterHorizontalBlank(irq, nextEvent);
          nextEvent := nextEvent + HBLANK_CYCLES;
        } else {
          LeaveHorizontalBlank(irq, nextEvent);
          nextEvent := nextEvent + HDRAW_CYCLES;
        }
        raised := raised + EventRaises(before);
      }
      assert raised + [] == raised;
    }

    method ConsumeScanline() returns (ready: Option<nat>)
      modifies this`scanline
      ensures ready == old(scanline) && scanline == None
    {
      ready := scanline;
      scanline := None;
    }

    method ConsumeFrame() returns (ready: bool)
      modifies this`frame
      ensures ready == old(frame) && !frame
    {
      ready := frame;
      frame := false;
    }
  }
}
