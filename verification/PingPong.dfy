/**
 The two tasks that share two frame buffers (platform/esp32s3/main/gba_runtime.cpp): the CPU task renders
 into the back buffer, publishes it as the front one and wakes the display task, which draws the front
 buffer and wakes the CPU task. Every shared access is a step of its own, in any interleaving.
 */
module PingPong {
  import opened Basics

  /** Where the CPU task stands; `buf` is its local copy of the back index. */
  datatype CpuPc =
    | Starting
    | FrameStart
    | Rendering(buf: nat)
    | Rendered(buf: nat)
    | AwaitingDraw(buf: nat)
    | StoringFront(buf: nat)
    | StoringBack(buf: nat)
    | Notifying
    | Skipping
    | FrameEnd

  datatype DisplayPc = AwaitingFrame | LoadingFront | Drawing(buf: nat) | Acknowledging

  /**
   `buffers` tells which frame each buffer holds, None while it is being rendered; `handed` which frames
   display_draw was called with, `outcomes` which of those calls succeeded, and `drawn` what they drew.
   */
  datatype Shared = Shared(
    front: nat, back: nat, cpuKnown: bool,
    displayNotified: nat, cpuNotified: nat,
    buffers: map<nat, Option<nat>>,
    cpu: CpuPc, skipNext: bool, inFlight: bool, framesRendered: nat,
    display: DisplayPc,
    published: seq<nat>, handed: seq<Option<nat>>, outcomes: seq<bool>, drawn: seq<Option<nat>>)

  function Start(): Shared {
    Shared(0, 1, false, 0, 0, map[0 := None, 1 := None], Starting, false, false, 0, AwaitingFrame, [], [], [], [])
  }

  /**
   Who moves; at a frame's end the CPU task finds out whether it was late, and so skips the next one. Drawing may
   fail, which the display task reports and otherwise takes as done.
   */
  datatype Event = CpuMoves(late: bool) | DisplayMoves(fails: bool)

  /** A task blocks only while it waits for a notification. */
  predicate CanMove(s: Shared, e: Event) {
    match e
    case CpuMoves(_) => s.cpu.AwaitingDraw? ==> s.cpuNotified > 0
    case DisplayMoves(_) => s.display.AwaitingFrame? ==> s.displayNotified > 0
  }

  function CpuStep(s: Shared, late: bool): Shared {
    match s.cpu
    case Starting => s.(cpuKnown := true, cpu := FrameStart)
    case FrameStart =>
      if s.skipNext then s.(skipNext := false, cpu := Skipping)
      else s.(buffers := s.buffers[s.back := None], cpu := Rendering(s.back))
    case Rendering(buf) =>
      s.(buffers := s.buffers[buf := Some(s.framesRendered)], framesRendered := s.framesRendered + 1, cpu := Rendered(buf))
    case Rendered(buf) => s.(cpu := if s.inFlight then AwaitingDraw(buf) else StoringFront(buf))
    case AwaitingDraw(buf) => s.(cpuNotified := 0, cpu := StoringFront(buf))
    case StoringFront(buf) => s.(front := buf, cpu := StoringBack(buf))
    case StoringBack(buf) => s.(back := 1 - Min(buf, 1), cpu := Notifying)
    case Notifying =>
      s.(displayNotified := s.displayNotified + 1, inFlight := true, cpu := FrameEnd,
         published := s.published + [s.framesRendered - Min(s.framesRendered, 1)])
    case Skipping => s.(cpu := FrameEnd)
    case FrameEnd => s.(skipNext := late, cpu := FrameStart)
  }

  function DisplayStep(s: Shared, fails: bool): Shared {
    match s.display
    case AwaitingFrame => s.(displayNotified := 0, display := LoadingFront)
    case LoadingFront => s.(display := Drawing(s.front))
    case Drawing(buf) =>
      var frame := if buf in s.buffers then s.buffers[buf] else None;
      s.(handed := s.handed + [frame], outcomes := s.outcomes + [!fails],
         drawn := if fails then s.drawn else s.drawn + [frame], display := Acknowledging)
    case Acknowledging =>
      s.(cpuNotified := s.cpuNotified + (if s.cpuKnown then 1 else 0), display := AwaitingFrame)
  }

  function Step(s: Shared, e: Event): Shared {
    if !CanMove(s, e) then s
    else
      match e
      case CpuMoves(late) => CpuStep(s, late)
      case DisplayMoves(fails) => DisplayStep(s, fails)
  }

  function Run(events: seq<Event>): Shared {
    if events == [] then Start() else Step(Run(events[..|events| - 1]), events[|events| - 1])
  }

  // ----- The invariant -----

  /** Between its wait and its next notification the CPU task owns both buffers. */
  predicate Publishing(pc: CpuPc) {
    pc.StoringFront? || pc.StoringBack? || pc.Notifying?
  }

  predicate DisplayBusy(s: Shared) { !s.display.AwaitingFrame? }

  /** A published frame is with exactly one party: announced, being drawn, or acknowledged but not yet noticed. */
  function Tokens(s: Shared): nat {
    s.displayNotified + s.cpuNotified + (if DisplayBusy(s) then 1 else 0)
  }

  /** Published and not yet handed to display_draw. */
  predicate Undrawn(s: Shared) {
    s.displayNotified > 0 || s.display.LoadingFront? || s.display.Drawing?
  }

  /** The CPU task works on a buffer of its own. */
  predicate HoldsBuffer(pc: CpuPc) {
    pc.Rendering? || pc.Rendered? || pc.AwaitingDraw? || pc.StoringFront? || pc.StoringBack?
  }

  /** A rendered frame is waiting to be published. */
  predicate Unpublished(pc: CpuPc) {
    pc.Rendered? || pc.AwaitingDraw? || Publishing(pc)
  }

  /** All frames so far, each once, as they were rendered. */
  function Frames(n: nat): seq<nat> { seq(n, i => i) }

  function FramesDrawn(n: nat): seq<Option<nat>> { seq(n, i => Some(i)) }

  /** Of the first frames, those whose drawing succeeded. */
  function Kept(outcomes: seq<bool>): seq<Option<nat>> {
    if outcomes == [] then []
    else
      var n := |outcomes| - 1;
      Kept(outcomes[..n]) + (if outcomes[n] then [Some(n)] else [])
  }

  ghost predicate Indices(s: Shared) {
    && s.front < 2 && s.back < 2 && s.buffers.Keys == {0, 1}
    && (s.front == s.back <==> s.cpu.StoringBack?)
    && (s.cpu.Starting? <==> !s.cpuKnown)
    && (HoldsBuffer(s.cpu) ==> s.cpu.buf == s.back)
    && (s.display.Drawing? ==> s.display.buf == s.front)
  }

  ghost predicate Handshake(s: Shared) {
    && Tokens(s) == (if s.inFlight && !Publishing(s.cpu) then 1 else 0)
    && (s.cpu.Starting? ==> !s.inFlight)
    && (s.cpu.AwaitingDraw? ==> s.inFlight)
  }

  ghost predicate Contents(s: Shared) {
    && (Unpublished(s.cpu) ==> s.framesRendered > 0)
    && s.published == Frames(s.framesRendered - (if Unpublished(s.cpu) then 1 else 0))
    && |s.published| == |s.handed| + (if Undrawn(s) then 1 else 0)
    && s.handed == FramesDrawn(|s.handed|)
    && |s.outcomes| == |s.handed| && s.drawn == Kept(s.outcomes)
    && (Undrawn(s) ==> s.front in s.buffers && s.buffers[s.front] == Some(|s.handed|))
    && (Unpublished(s.cpu) ==>
          var buf := if s.cpu.Notifying? then s.front else s.cpu.buf;
          buf in s.buffers && s.buffers[buf] == Some(s.framesRendered - 1))
  }

  ghost predicate Safe(s: Shared) {
    Indices(s) && Handshake(s) && Contents(s)
  }

  lemma StartIsSafe()
    ensures Safe(Start())
  {
  }

  lemma RenderKeepsIndices(s: Shared, late: bool)
    requires Safe(s) && !HoldsBuffer(s.cpu)
    ensures Indices(CpuStep(s, late))
  {
    hide Contents, Handshake;
  }

  lemma PublishKeepsIndices(s: Shared, late: bool)
    requires Safe(s) && HoldsBuffer(s.cpu) && CanMove(s, CpuMoves(late))
    ensures Indices(CpuStep(s, late))
  {
    hide Contents;
  }

  lemma CpuStepKeepsHandshake(s: Shared, late: bool)
    requires Safe(s) && CanMove(s, CpuMoves(late))
    ensures Handshake(CpuStep(s, late))
  {
    hide Contents, Indices;
  }

  lemma RenderKeepsContents(s: Shared, late: bool)
    requires Safe(s) && (s.cpu.FrameStart? || s.cpu.Rendering?)
    ensures Contents(CpuStep(s, late))
  {
    hide FramesDrawn, Frames, Handshake;
  }

  lemma PublishKeepsContents(s: Shared, late: bool)
    requires Safe(s) && Unpublished(s.cpu) && !s.cpu.Notifying?
    ensures Contents(CpuStep(s, late))
  {
    hide FramesDrawn, Frames;
  }

  lemma NotifyKeepsContents(s: Shared, late: bool)
    requires Safe(s) && s.cpu.Notifying?
    ensures Contents(CpuStep(s, late))
  {
    hide FramesDrawn;
    assert CpuStep(s, late).published == Frames(s.framesRendered);
  }

  lemma OtherStepKeepsContents(s: Shared, late: bool)
    requires Safe(s) && (s.cpu.Starting? || s.cpu.Skipping? || s.cpu.FrameEnd?)
    ensures Contents(CpuStep(s, late))
  {
    hide FramesDrawn, Frames, Handshake, Indices;
  }

  lemma CpuStepKeepsSafe(s: Shared, late: bool)
    requires Safe(s) && CanMove(s, CpuMoves(late))
    ensures Safe(CpuStep(s, late))
  {
    hide Contents, Indices, Handshake;
    CpuStepKeepsHandshake(s, late);
    if HoldsBuffer(s.cpu) {
      PublishKeepsIndices(s, late);
    } else {
      RenderKeepsIndices(s, late);
    }
    if s.cpu.FrameStart? || s.cpu.Rendering? {
      RenderKeepsContents(s, late);
    } else if s.cpu.Notifying? {
      NotifyKeepsContents(s, late);
    } else if Unpublished(s.cpu) {
      PublishKeepsContents(s, late);
    } else {
      OtherStepKeepsContents(s, late);
    }
  }

  lemma DisplayKeepsHandshake(s: Shared, fails: bool)
    requires Safe(s) && CanMove(s, DisplayMoves(fails))
    ensures Indices(DisplayStep(s, fails)) && Handshake(DisplayStep(s, fails))
  {
    hide Contents, Kept;
  }

  /** Where nothing is drawn, what is on the screen stays. */
  lemma WaitingKeepsContents(s: Shared, fails: bool)
    requires Safe(s) && CanMove(s, DisplayMoves(fails)) && !s.display.Drawing?
    ensures Contents(DisplayStep(s, fails))
  {
    hide FramesDrawn, Frames, Kept;
  }

  lemma DrawingKeepsContents(s: Shared, fails: bool)
    requires Safe(s) && s.display.Drawing?
    ensures Contents(DisplayStep(s, fails))
  {
    hide Frames;
    var t := DisplayStep(s, fails);
    assert t.handed == FramesDrawn(|s.handed| + 1);
    assert t.outcomes[..|s.outcomes|] == s.outcomes;
  }

  lemma DisplayStepKeepsSafe(s: Shared, fails: bool)
    requires Safe(s) && CanMove(s, DisplayMoves(fails))
    ensures Safe(DisplayStep(s, fails))
  {
    hide Contents, Indices, Handshake, DisplayStep;
    DisplayKeepsHandshake(s, fails);
    if s.display.Drawing? {
      DrawingKeepsContents(s, fails);
    } else {
      WaitingKeepsContents(s, fails);
    }
  }

  /** Every reachable state, under every interleaving, is safe. */
  lemma {:induction false} RunsAreSafe(events: seq<Event>)
    ensures Safe(Run(events))
  {
    hide Safe, CpuStep, DisplayStep;
    if events == [] {
      StartIsSafe();
    } else {
      var before, e := Run(events[..|events| - 1]), events[|events| - 1];
      RunsAreSafe(events[..|events| - 1]);
      if CanMove(before, e) {
        match e {
          case CpuMoves(late) => CpuStepKeepsSafe(before, late);
          case DisplayMoves(fails) => DisplayStepKeepsSafe(before, fails);
        }
      }
    }
  }

  // ----- What it means -----

  /** The display never draws the buffer that is being rendered, and no notification is ever lost to a second one. */
  lemma NeverTorn(events: seq<Event>)
    ensures var s := Run(events);
      && !(s.cpu.Rendering? && s.display.Drawing? && s.cpu.buf == s.display.buf)
      && s.displayNotified <= 1 && s.cpuNotified <= 1
      && (s.display.Drawing? ==> s.display.buf in s.buffers && s.buffers[s.display.buf].Some?)
  {
    RunsAreSafe(events);
  }

  /**
   Frames are published in the order they were rendered, and handed over in that order, each once; at most one is
   outstanding. On the screen they appear in that order too, each once at most, and frame i exactly if its call
   succeeded: a frame whose drawing failed is not drawn again.
   */
  lemma DrawnInOrder(events: seq<Event>)
    ensures var s := Run(events);
      && s.published == Frames(|s.published|)
      && s.handed == FramesDrawn(|s.handed|)
      && |s.handed| <= |s.published| <= |s.handed| + 1
      && |s.published| <= s.framesRendered <= |s.published| + 1
      && |s.outcomes| == |s.handed|
      && (forall i: nat :: Some(i) in s.drawn <==> i < |s.outcomes| && s.outcomes[i])
      && (forall i, j | 0 <= i < j < |s.drawn| :: s.drawn[i].Some? && s.drawn[j].Some? && s.drawn[i].value < s.drawn[j].value)
  {
    RunsAreSafe(events);
    KeptExact(Run(events).outcomes);
    KeptIncreasing(Run(events).outcomes);
  }

  lemma {:induction false} KeptExact(outcomes: seq<bool>)
    ensures forall i: nat :: Some(i) in Kept(outcomes) <==> i < |outcomes| && outcomes[i]
  {
    if outcomes != [] {
      var n := |outcomes| - 1;
      KeptExact(outcomes[..n]);
    }
  }

  lemma {:induction false} KeptIncreasing(outcomes: seq<bool>)
    ensures forall i | 0 <= i < |Kept(outcomes)| :: Kept(outcomes)[i].Some? && Kept(outcomes)[i].value < |outcomes|
    ensures forall i, j | 0 <= i < j < |Kept(outcomes)| :: Kept(outcomes)[i].value < Kept(outcomes)[j].value
  {
    if outcomes != [] {
      KeptIncreasing(outcomes[..|outcomes| - 1]);
    }
  }

  /** One task or the other can always move. */
  lemma NeverDeadlocked(events: seq<Event>)
    ensures CanMove(Run(events), CpuMoves(false)) || CanMove(Run(events), DisplayMoves(false))
  {
    RunsAreSafe(events);
  }

  /** How many steps of the display task until it notifies the CPU task. */
  function StepsToAcknowledge(s: Shared): nat {
    match s.display case AwaitingFrame => 4 case LoadingFront => 3 case Drawing(_) => 2 case Acknowledging => 1
  }

  /**
   A blocked CPU task waits for at most four steps of the display task, none of which can block, whether drawing
   fails or not.
   */
  lemma BlockedCpuIsServed(s: Shared, fails: bool)
    requires Safe(s) && !CanMove(s, CpuMoves(false))
    ensures CanMove(s, DisplayMoves(fails))
    ensures var t := DisplayStep(s, fails);
      if StepsToAcknowledge(s) == 1 then CanMove(t, CpuMoves(false))
      else !CanMove(t, CpuMoves(false)) && StepsToAcknowledge(t) == StepsToAcknowledge(s) - 1
  {
  }

  /**
   A published frame is handed to display_draw after at most three more steps of the display task, none of which
   can block, and is on the screen after that exactly if drawing succeeds.
   */
  lemma PublishedFrameIsDrawn(s: Shared, fails: bool)
    requires Safe(s) && |s.published| > |s.handed|
    ensures CanMove(s, DisplayMoves(fails))
    ensures var t, frame := DisplayStep(s, fails), Some(s.published[|s.handed|]);
      if s.display.Drawing? then
        && |t.handed| == |t.published| && t.handed[|s.handed|] == frame
        && t.drawn == if fails then s.drawn else s.drawn + [frame]
      else t.handed == s.handed && t.drawn == s.drawn && StepsToAcknowledge(t) == StepsToAcknowledge(s) - 1
  {
    hide Kept;
  }

  /** A skipped frame touches neither buffer, index nor notification. */
  lemma SkippedFrameIsInvisible(s: Shared, late: bool)
    requires s.cpu.FrameStart? && s.skipNext
    ensures var t := CpuStep(CpuStep(CpuStep(s, late), late), late);
      t == s.(skipNext := late)
  {
  }
}
