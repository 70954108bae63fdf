/**
 The DMA controller's channels and their scheduling (src/core/dma.cpp). What a transfer moves is the
 subject of DmaTransfer; here its outcome is arbitrary.
 */
module DmaEngine {
  import opened Basics
  import Irq
  import RamBus
  import DmaCopy

  const CHANNELS: nat := 4

  datatype Timing = Immediate | VBlank | HBlank | Special

  /** The parts of the control register that decide when and how a channel runs. */
  datatype Control = Control(
    enabled: bool, irq: bool, timing: Timing, repeat: bool, word: bool, srcMode: nat, dstMode: nat)

  datatype Channel = Channel(
    source: u32, destination: u32, wordCount: u16, control: Control,
    pending: bool, activation: nat, curSource: u32, curDestination: u32, curCount: nat, latch: u32)

  const OFF := Control(false, false, Immediate, false, false, 0, 0)
  const IDLE := Channel(0, 0, 0, OFF, false, 0, 0, 0, 0, 0)

  /** Where a transfer ended and what it cost, bus time only. */
  datatype Outcome = Outcome(source: u32, destination: u32, latch: u32, cycles: nat)

  function MaxCount(i: nat): nat { if i == 3 then 0x1_0000 else 0x4000 }

  /** A count register of zero means the largest count. */
  function TransferCount(ch: Channel, i: nat): nat {
    if ch.wordCount != 0 then ch.wordCount else MaxCount(i)
  }

  function SourceMask(i: nat, address: u32): u32 { if i == 0 then address % 0x800_0000 else address % 0x1000_0000 }
  function DestinationMask(i: nat, address: u32): u32 { if i <= 2 then address % 0x800_0000 else address % 0x1000_0000 }

  /** The latched address lies within the channel's reach, 128 or 256 MiB, and agrees with the register there. */
  ghost predicate OnBus(internal: bool, register: u32, latched: u32) {
    var reach := if internal then 0x800_0000 else 0x1000_0000;
    latched < reach && exists k: nat :: register == latched + k * reach
  }

  lemma SourceOnBus(i: nat, address: u32)
    ensures OnBus(i == 0, address, SourceMask(i, address))
  {
    assert address == SourceMask(i, address) + address / 0x800_0000 * 0x800_0000
        || address == SourceMask(i, address) + address / 0x1000_0000 * 0x1000_0000;
  }

  lemma DestinationOnBus(i: nat, address: u32)
    ensures OnBus(i <= 2, address, DestinationMask(i, address))
  {
    assert address == DestinationMask(i, address) + address / 0x800_0000 * 0x800_0000
        || address == DestinationMask(i, address) + address / 0x1000_0000 * 0x1000_0000;
  }

  function Latched(ch: Channel, i: nat): Channel {
    ch.(curSource := SourceMask(i, ch.source), curDestination := DestinationMask(i, ch.destination),
        curCount := TransferCount(ch, i))
  }

  predicate Waiting(ch: Channel) { ch.pending && ch.control.enabled }
  predicate DueAt(ch: Channel, now: nat) { Waiting(ch) && ch.activation <= now }

  predicate FifoMode(ch: Channel, i: nat) { (i == 1 || i == 2) && ch.control.timing == Special }

  function AlignTo(address: u32, word: bool): u32 { if word then address / 4 * 4 else address / 2 * 2 }

  /** A channel after its transfer: ready to repeat, or switched off. */
  function Served(ch: Channel, i: nat, o: Outcome): Channel {
    var moved := ch.(curSource := o.source, curDestination := o.destination, latch := o.latch, pending := false, activation := NEVER);
    if ch.control.repeat && ch.control.timing != Immediate then
      if FifoMode(ch, i) then moved.(curCount := 4)
      else moved.(curCount := TransferCount(ch, i),
                  curDestination := if ch.control.dstMode == 3 then AlignTo(ch.destination, ch.control.word) else o.destination)
    else
      moved.(control := ch.control.(enabled := false), curCount := 0)
  }

  /** The word count fits its register, an enabled channel has something to move, and only such a one waits. */
  ghost predicate ChannelValid(ch: Channel, i: nat) {
    && ch.wordCount < MaxCount(i)
    && (ch.control.enabled ==> 1 <= ch.curCount <= MaxCount(i))
    && (ch.pending ==> ch.control.enabled)
  }

  ghost predicate AllValid(chs: seq<Channel>) {
    |chs| == CHANNELS && forall i | 0 <= i < CHANNELS :: ChannelValid(chs[i], i)
  }

  /** `next` is not after any waiting channel's date. */
  ghost predicate NotLate(chs: seq<Channel>, next: nat) {
    forall i | 0 <= i < |chs| :: Waiting(chs[i]) ==> next <= chs[i].activation
  }

  function EarliestWaiting(chs: seq<Channel>, n: nat): nat
    requires n <= |chs|
  {
    if n == 0 then NEVER
    else
      var earlier := EarliestWaiting(chs, n - 1);
      if Waiting(chs[n - 1]) then Min(earlier, chs[n - 1].activation) else earlier
  }

  lemma {:induction false} EarliestWaitingExact(chs: seq<Channel>, n: nat, i: nat)
    requires i < n <= |chs|
    ensures Waiting(chs[i]) ==> EarliestWaiting(chs, n) <= chs[i].activation
    decreases n
  {
    if i < n - 1 {
      EarliestWaitingExact(chs, n - 1, i);
    }
  }

  lemma {:induction false} EarliestWaitingAfter(chs: seq<Channel>, n: nat, now: nat)
    requires n <= |chs| && now < NEVER
    requires forall i | 0 <= i < n :: Waiting(chs[i]) ==> chs[i].activation > now
    ensures EarliestWaiting(chs, n) > now
    decreases n
  {
    if n > 0 {
      EarliestWaitingAfter(chs, n - 1, now);
    }
  }

  /** The request lines of the machine. */
  datatype Line = HBlankLine | VBlankLine | FifoA | FifoB

  /** The line that starts a channel; immediate channels, and channels 0 and 3 in special timing, have none. */
  function LineOf(ch: Channel, i: nat): Option<Line> {
    match ch.control.timing
    case Immediate => None
    case HBlank => Some(HBlankLine)
    case VBlank => Some(VBlankLine)
    case Special => if i == 1 then Some(FifoA) else if i == 2 then Some(FifoB) else None
  }

  predicate OnLine(ch: Channel, i: nat, lines: set<Line>) {
    LineOf(ch, i).Some? && LineOf(ch, i).value in lines
  }

  /** A channel after these lines fired at `now`. */
  function Marked(ch: Channel, i: nat, lines: set<Line>, now: nat): Channel {
    if ch.control.enabled && OnLine(ch, i, lines)
    then ch.(pending := true, activation := now + 2) else ch
  }

  ghost predicate AllMarked(before: seq<Channel>, after: seq<Channel>, lines: set<Line>, now: nat) {
    |before| == |after| == CHANNELS && forall i | 0 <= i < CHANNELS :: after[i] == Marked(before[i], i, lines, now)
  }

  /** Firing lines one after another at one cycle is firing them together. */
  lemma MarkedTwice(a: seq<Channel>, b: seq<Channel>, c: seq<Channel>, first: set<Line>, second: set<Line>, now: nat)
    requires AllMarked(a, b, first, now) && AllMarked(b, c, second, now)
    ensures AllMarked(a, c, first + second, now)
  {
  }

  lemma NoneMarked(chs: seq<Channel>, now: nat)
    requires |chs| == CHANNELS
    ensures AllMarked(chs, chs, {}, now)
  {
  }

  /** Channels 0, ..., n - 1 after a service at `now`. */
  function ServedChannel(ch: Channel, i: nat, now: nat, o: Outcome): Channel {
    if DueAt(ch, now) then Served(ch, i, o) else ch
  }

  lemma ServedStaysValid(ch: Channel, i: nat, now: nat, o: Outcome)
    requires ChannelValid(ch, i) && i < CHANNELS
    ensures ChannelValid(ServedChannel(ch, i, now, o), i)
    ensures !DueAt(ServedChannel(ch, i, now, o), now)
  {
  }

  /** Bus cycles of the channels served at `now`; one cycle to start and one to stop. */
  function BusyCycles(chs: seq<Channel>, now: nat, outcomes: seq<Outcome>, n: nat): nat
    requires n <= |chs| == |outcomes|
  {
    if n == 0 then 0
    else
      var before := BusyCycles(chs, now, outcomes, n - 1);
      if DueAt(chs[n - 1], now) then (if before == 0 then 1 else before) + outcomes[n - 1].cycles else before
  }

  function ServiceCycles(chs: seq<Channel>, now: nat, outcomes: seq<Outcome>): nat
    requires |chs| == |outcomes|
  {
    var busy := BusyCycles(chs, now, outcomes, |chs|);
    if busy == 0 then 0 else busy + 1
  }

  lemma {:induction false} BusyIffDue(chs: seq<Channel>, now: nat, outcomes: seq<Outcome>, n: nat)
    requires n <= |chs| == |outcomes|
    ensures BusyCycles(chs, now, outcomes, n) > 0 <==> exists i | 0 <= i < n :: DueAt(chs[i], now)
    decreases n
  {
    if n > 0 {
      BusyIffDue(chs, now, outcomes, n - 1);
    }
  }

  /** The transfer that a due channel makes. */
  function JobOf(ch: Channel, i: nat): DmaCopy.Job {
    var word := FifoMode(ch, i) || ch.control.word;
    DmaCopy.Job(AlignTo(ch.curSource, word), AlignTo(ch.curDestination, word),
                if FifoMode(ch, i) then 4 else ch.curCount, if word then RamBus.Word else RamBus.Half,
                ch.control.srcMode, ch.control.dstMode, FifoMode(ch, i))
  }

  /** It has at least one unit and at most 0x10000, and aligned addresses: what the copy loops rely on. */
  lemma JobIsReady(ch: Channel, i: nat, now: nat)
    requires ChannelValid(ch, i) && DueAt(ch, now) && i < CHANNELS
    ensures 0 < JobOf(ch, i).units <= 0x1_0000
    ensures DmaCopy.Aligned(JobOf(ch, i).source, JobOf(ch, i).width)
    ensures DmaCopy.Aligned(JobOf(ch, i).destination, JobOf(ch, i).width)
  {
    var word := FifoMode(ch, i) || ch.control.word;
    AlignToAligns(ch.curSource, word);
    AlignToAligns(ch.curDestination, word);
    hide AlignTo, DmaCopy.Aligned;
  }

  lemma AlignToAligns(address: u32, word: bool)
    ensures DmaCopy.Aligned(AlignTo(address, word), if word then RamBus.Word else RamBus.Half)
  {
    DmaCopy.AlignedBy(AlignTo(address, word), if word then RamBus.Word else RamBus.Half,
                      if word then address / 4 else address / 2);
  }

  class DmaController {
    var channels: seq<Channel>
    var nextEvent: nat

    ghost predicate Valid()
      reads this
    {
      |channels| == CHANNELS && AllValid(channels) && NotLate(channels, nextEvent)
    }

    constructor ()
      ensures Valid() && channels == seq(CHANNELS, _ => IDLE) && nextEvent == NEVER
    {
      channels, nextEvent := seq(CHANNELS, _ => IDLE), NEVER;
    }

    method LatchTransferState(i: nat)
      requires i < |channels|
      modifies this`channels
      ensures channels == old(channels)[i := Latched(old(channels)[i], i)]
      ensures old(channels)[i].wordCount < MaxCount(i) ==>
        1 <= channels[i].curCount <= MaxCount(i) && channels[i].curCount % MaxCount(i) == channels[i].wordCount
      ensures OnBus(i == 0, channels[i].source, channels[i].curSource)
      ensures OnBus(i <= 2, channels[i].destination, channels[i].curDestination)
    {
      hide SourceMask, DestinationMask;
      SourceOnBus(i, channels[i].source);
      DestinationOnBus(i, channels[i].destination);
      var ch := channels[i];
      channels := channels[i := ch.(curSource := SourceMask(i, ch.source))];
      channels := channels[i := channels[i].(curDestination := DestinationMask(i, ch.destination))];
      channels := channels[i := channels[i].(curCount := TransferCount(ch, i))];
    }

    /** A channel is to start `delay` cycles from now. */
    method Schedule(i: nat, now: nat, delay: nat)
      requires i < |channels|
      modifies this
      ensures channels == old(channels)[i := old(channels)[i].(pending := true, activation := now + delay)]
      ensures nextEvent == Min(old(nextEvent), now + delay)
    {
      channels := channels[i := channels[i].(pending := true, activation := now + delay)];
      nextEvent := Min(nextEvent, now + delay);
    }

    /** The address words of write_register; they matter at the next latch, or reload of the destination. */
    method WriteAddress(i: nat, destination: bool, value: u32)
      requires Valid() && i < CHANNELS
      modifies this`channels
      ensures Valid() && forall j | 0 <= j < CHANNELS && j != i :: channels[j] == old(channels)[j]
      ensures channels[i] == if destination then old(channels)[i].(destination := value) else old(channels)[i].(source := value)
    {
      var ch := channels[i];
      channels := channels[i := if destination then ch.(destination := value) else ch.(source := value)];
    }

    /** The count half-word of write_register. */
    method WriteCount(i: nat, value: u16)
      requires Valid() && i < CHANNELS
      modifies this`channels
      ensures Valid()
      ensures channels == old(channels)[i := old(channels)[i].(wordCount := value % MaxCount(i))]
    {
      channels := channels[i := channels[i].(wordCount := value % MaxCount(i))];
    }

    /** The control half-word of write_register. */
    method WriteControl(i: nat, control: Control, now: nat)
      requires Valid() && i < CHANNELS
      modifies this
      ensures Valid()
      ensures forall j | 0 <= j < CHANNELS && j != i :: channels[j] == old(channels)[j]
      ensures !control.enabled ==>
        channels[i] == old(channels)[i].(control := control, pending := false, activation := NEVER) && nextEvent == old(nextEvent)
      ensures control.enabled && control.timing != Immediate ==>
        channels[i] == Latched(old(channels)[i].(control := control), i) && nextEvent == old(nextEvent)
      ensures control.enabled && control.timing == Immediate ==>
        channels[i] == Latched(old(channels)[i].(control := control, pending := true, activation := now + 3), i)
        && nextEvent <= now + 3
    {
      hide SourceMask, DestinationMask;
      channels := channels[i := channels[i].(control := control)];
      if control.enabled {
        LatchTransferState(i);
        if control.timing == Immediate {
          Schedule(i, now, 3);
        }
      } else {
        channels := channels[i := channels[i].(pending := false, activation := NEVER)];
      }
    }

    /** request_vblank, request_hblank: every enabled channel on the line starts two cycles later. */
    method MarkPending(timing: Timing, now: nat)
      requires Valid() && (timing == HBlank || timing == VBlank)
      modifies this
      ensures Valid() && nextEvent >= Min(old(nextEvent), now + 2)
      ensures AllMarked(old(channels), channels, if timing == HBlank then {HBlankLine} else {VBlankLine}, now)
    {
      hide Latched;
      for i := 0 to CHANNELS
        invariant Valid() && nextEvent >= Min(old(nextEvent), now + 2)
        invariant forall j | 0 <= j < CHANNELS ::
          channels[j] == if j < i && old(channels)[j].control.enabled && old(channels)[j].control.timing == timing
                         then old(channels)[j].(pending := true, activation := now + 2) else old(channels)[j]
      {
        MarkOne(i, timing, now);
      }
    }

    /** An enabled channel always has a count, so the code's extra latch when it is zero never runs. */
    method MarkOne(i: nat, timing: Timing, now: nat)
      requires Valid() && i < CHANNELS
      modifies this
      ensures Valid() && Min(old(nextEvent), now + 2) <= nextEvent
      ensures channels == old(channels)[i :=
        if old(channels)[i].control.enabled && old(channels)[i].control.timing == timing
        then old(channels)[i].(pending := true, activation := now + 2) else old(channels)[i]]
    {
      if channels[i].control.enabled && channels[i].control.timing == timing {
        if channels[i].curCount == 0 {
          assert false;
        }
        Schedule(i, now, 2);
      }
    }

    /** request_fifo_a (channel 1) and request_fifo_b (channel 2) */
    method RequestFifo(i: nat, now: nat)
      requires Valid() && 1 <= i <= 2
      modifies this
      ensures Valid() && Min(old(nextEvent), now + 2) <= nextEvent
      ensures AllMarked(old(channels), channels, if i == 1 then {FifoA} else {FifoB}, now)
    {
      MarkOne(i, Special, now);
    }

    /** One due channel transfers and is finished or made ready to repeat. */
    method ServeChannel(i: nat, o: Outcome, irq: Irq.IrqController)
      requires |channels| == CHANNELS && i < CHANNELS
      modifies this`channels, irq
      ensures channels == old(channels)[i := Served(old(channels)[i], i, o)]
      ensures irq.State() == if old(channels)[i].control.irq then Irq.Request(old(irq.State()), Irq.DmaMask(i)) else old(irq.State())
    {
      hide AlignTo, Irq.Request;
      var ch := channels[i];
      ch := ch.(curSource := o.source, curDestination := o.destination, latch := o.latch, pending := false, activation := NEVER);
      if ch.control.repeat && ch.control.timing != Immediate {
        if FifoMode(ch, i) {
          ch := ch.(curCount := 4);
        } else {
          ch := ch.(curCount := TransferCount(ch, i));
          if ch.control.dstMode == 3 {
            ch := ch.(curDestination := AlignTo(ch.destination, ch.control.word));
          }
        }
      } else {
        ch := ch.(control := ch.control.(enabled := false), curCount := 0);
      }
      channels := channels[i := ch];
      if ch.control.irq {
        irq.RequestNow(Irq.DmaMask(i));
      }
    }

    /** After channels below n, everything about a service that began with `before`. */
    ghost predicate ServedUpTo(before: seq<Channel>, now: nat, outcomes: seq<Outcome>, n: nat)
      requires |before| == |outcomes| == CHANNELS && n <= CHANNELS
      reads this`channels
    {
      && |channels| == CHANNELS
      && forall j | 0 <= j < CHANNELS ::
           channels[j] == if j < n then ServedChannel(before[j], j, now, outcomes[j]) else before[j]
    }

    /** The channel loop of service_due. */
    method ServeDueChannels(now: nat, outcomes: seq<Outcome>, irq: Irq.IrqController) returns (cycles: nat)
      requires |channels| == |outcomes| == CHANNELS
      modifies this`channels, irq
      ensures ServedUpTo(old(channels), now, outcomes, CHANNELS)
      ensures cycles == BusyCycles(old(channels), now, outcomes, CHANNELS)
      ensures irq.State() == RequestEach(old(irq.State()), old(channels), now, CHANNELS)
    {
      hide Served, Irq.Request;
      cycles := 0;
      for i := 0 to CHANNELS
        invariant ServedUpTo(old(channels), now, outcomes, i)
        invariant cycles == BusyCycles(old(channels), now, outcomes, i)
        invariant irq.State() == RequestEach(old(irq.State()), old(channels), now, i)
      {
        if DueAt(channels[i], now) {
          if cycles == 0 {
            cycles := 1;
          }
          cycles := cycles + outcomes[i].cycles;
          ServeChannel(i, outcomes[i], irq);
        }
      }
    }

    /** service_due: all channels due by `now` transfer, lowest first; afterwards nothing is due any more. */
    method ServiceDue(now: nat, outcomes: seq<Outcome>, irq: Irq.IrqController) returns (cycles: nat)
      requires Valid() && |outcomes| == CHANNELS && now < NEVER
      modifies this, irq
      ensures Valid() && nextEvent > now
      ensures forall i | 0 <= i < CHANNELS :: channels[i] == ServedChannel(old(channels)[i], i, now, outcomes[i])
      ensures cycles == ServiceCycles(old(channels), now, outcomes)
      ensures irq.State() == RequestEach(old(irq.State()), old(channels), now, CHANNELS)
      ensures old(nextEvent) > now ==> cycles == 0 && nextEvent == old(nextEvent) && irq.State() == old(irq.State())
    {
      hide Served, Irq.Request, ChannelValid, DueAt;
      if nextEvent > now {
        NothingDue(channels, nextEvent, now, outcomes, irq.State(), CHANNELS);
        return 0;
      }
      ghost var before := channels;
      var busy := ServeDueChannels(now, outcomes, irq);
      cycles := if busy == 0 then 0 else busy + 1;
      AllServed(before, channels, now, outcomes);
      nextEvent := NEVER;
      for i := 0 to CHANNELS
        modifies this`nextEvent
        invariant nextEvent == EarliestWaiting(channels, i)
      {
        if Waiting(channels[i]) {
          nextEvent := Min(nextEvent, channels[i].activation);
        }
      }
      EarliestIsNotLate(channels, now);
    }
  }

  /** The interrupts requested by the channels below n that are served at `now`. */
  function RequestEach(q: Irq.IrqState, chs: seq<Channel>, now: nat, n: nat): Irq.IrqState
    requires n <= |chs|
  {
    if n == 0 then q
    else
      var before := RequestEach(q, chs, now, n - 1);
      if DueAt(chs[n - 1], now) && chs[n - 1].control.irq then Irq.Request(before, Irq.DmaMask(n - 1)) else before
  }

  lemma {:induction false} NothingDue(chs: seq<Channel>, next: nat, now: nat, outcomes: seq<Outcome>, q: Irq.IrqState, n: nat)
    requires NotLate(chs, next) && next > now && n <= |chs| == |outcomes|
    ensures BusyCycles(chs, now, outcomes, n) == 0 && RequestEach(q, chs, now, n) == q
    ensures forall i | 0 <= i < |chs| :: !DueAt(chs[i], now)
    decreases n
  {
    if n > 0 {
      NothingDue(chs, next, now, outcomes, q, n - 1);
    }
  }

  lemma AllServed(before: seq<Channel>, after: seq<Channel>, now: nat, outcomes: seq<Outcome>)
    requires AllValid(before) && |after| == |outcomes| == CHANNELS
    requires forall j | 0 <= j < CHANNELS :: after[j] == ServedChannel(before[j], j, now, outcomes[j])
    ensures AllValid(after) && forall j | 0 <= j < CHANNELS :: !DueAt(after[j], now)
  {
    hide ChannelValid, DueAt, ServedChannel;
    forall j | 0 <= j < CHANNELS
      ensures ChannelValid(after[j], j) && !DueAt(after[j], now)
    {
      ServedStaysValid(before[j], j, now, outcomes[j]);
    }
  }

  lemma EarliestIsNotLate(chs: seq<Channel>, now: nat)
    requires now < NEVER && forall j | 0 <= j < |chs| :: !DueAt(chs[j], now)
    ensures NotLate(chs, EarliestWaiting(chs, |chs|)) && EarliestWaiting(chs, |chs|) > now
  {
    hide Waiting;
    forall j | 0 <= j < |chs|
      ensures Waiting(chs[j]) ==> EarliestWaiting(chs, |chs|) <= chs[j].activation
    {
      EarliestWaitingExact(chs, |chs|, j);
    }
    forall j | 0 <= j < |chs|
      ensures Waiting(chs[j]) ==> chs[j].activation > now
    {
      assert !DueAt(chs[j], now);
    }
    EarliestWaitingAfter(chs, |chs|, now);
  }
}
