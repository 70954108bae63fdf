/**
 How often DMA can keep the service loop going. In each round the request lines of the machine may fire, then
 the channels that are due transfer; a transfer takes time, and so there is another round.
 */
module DmaRounds {
  import opened Basics
  import opened DmaEngine

  /** What happens in one round: the lines that fire, and what each transfer costs. */
  datatype Happening = Happening(lines: set<Line>, outcomes: seq<Outcome>)

  /** Firing a line at `now` starts its channels two cycles later, so never in the round it fires. */
  function Next(ch: Channel, i: nat, now: nat, lines: set<Line>, o: Outcome): Channel {
    ServedChannel(Marked(ch, i, lines, now), i, now, o)
  }

  /** Some channel transfers in a round. */
  ghost predicate Busy(chs: seq<Channel>, now: nat, lines: set<Line>) {
    exists i | 0 <= i < |chs| :: DueAt(Marked(chs[i], i, lines, now), now)
  }

  ghost predicate SomeDue(chs: seq<Channel>, now: nat) {
    exists i | 0 <= i < |chs| :: DueAt(chs[i], now)
  }

  // ----- What a program can read off the control registers -----

  /** The channel serves its line again and again. */
  predicate Repeats(ch: Channel, i: nat) {
    ch.control.enabled && ch.control.repeat && LineOf(ch, i).Some?
  }

  /** All repeating channels are on one line. */
  ghost predicate OneLine(chs: seq<Channel>) {
    forall i, j | 0 <= i < |chs| && 0 <= j < |chs| && Repeats(chs[i], i) && Repeats(chs[j], j) :: LineOf(chs[i], i) == LineOf(chs[j], j)
  }

  // ----- With one line the loop ends -----

  /** The channel can transfer once more, and then never again. */
  predicate OneShot(ch: Channel, i: nat) {
    ch.control.enabled && !Repeats(ch, i) && (ch.pending || LineOf(ch, i).Some?)
  }

  function Weight(ch: Channel, i: nat): nat {
    if OneShot(ch, i) then CHANNELS + 1 else if Repeats(ch, i) && ch.pending then 1 else 0
  }

  function TotalWeight(chs: seq<Channel>): nat
    requires |chs| == CHANNELS
  {
    Weight(chs[0], 0) + Weight(chs[1], 1) + Weight(chs[2], 2) + Weight(chs[3], 3)
  }

  /** No four channels weigh more than this. */
  const MAX_WEIGHT: nat := CHANNELS * (CHANNELS + 1)

  /** The channels after a round. */
  ghost predicate IsRound(before: seq<Channel>, after: seq<Channel>, now: nat, lines: set<Line>, outcomes: seq<Outcome>) {
    && |before| == |after| == |outcomes| == CHANNELS
    && forall i | 0 <= i < CHANNELS :: after[i] == Next(before[i], i, now, lines, outcomes[i])
  }

  /** Marking and then serving, as the machine does, is a round; it costs cycles exactly if it is busy. */
  lemma ServiceIsRound(before: seq<Channel>, marked: seq<Channel>, after: seq<Channel>, now: nat, lines: set<Line>, outcomes: seq<Outcome>)
    requires AllMarked(before, marked, lines, now) && |after| == |outcomes| == CHANNELS
    requires forall i | 0 <= i < CHANNELS :: after[i] == ServedChannel(marked[i], i, now, outcomes[i])
    ensures IsRound(before, after, now, lines, outcomes)
    ensures ServiceCycles(marked, now, outcomes) > 0 <==> Busy(before, now, lines)
    ensures var h := Happening(lines, outcomes);
      after == RoundOf(before, now, h) && TimeAfter(before, now, h) == now + ServiceCycles(marked, now, outcomes)
  {
    hide ServedChannel, Marked, DueAt;
    assert marked == MarkAll(before, now, lines);
    assert after == RoundOf(before, now, Happening(lines, outcomes));
    BusyIffDue(marked, now, outcomes, CHANNELS);
    forall i | 0 <= i < CHANNELS
      ensures DueAt(marked[i], now) <==> DueAt(Marked(before[i], i, lines, now), now)
    {
    }
  }

  lemma NextWeight(ch: Channel, i: nat, now: nat, lines: set<Line>, o: Outcome)
    ensures Weight(Next(ch, i, now, lines, o), i) <= Weight(ch, i) + 1
    ensures Repeats(Next(ch, i, now, lines, o), i) ==> Repeats(ch, i) && LineOf(Next(ch, i, now, lines, o), i) == LineOf(ch, i)
    ensures !(Repeats(ch, i) && OnLine(ch, i, lines)) ==> Weight(Next(ch, i, now, lines, o), i) <= Weight(ch, i)
    ensures DueAt(Marked(ch, i, lines, now), now) ==>
      if OneShot(ch, i) then Weight(ch, i) == CHANNELS + 1 && Weight(Next(ch, i, now, lines, o), i) == 0
      else Repeats(ch, i) && !OnLine(ch, i, lines) && Weight(Next(ch, i, now, lines, o), i) < Weight(ch, i)
  {
  }

  /** With one line, every busy round lowers the weight: either a last transfer is made, or the line did not fire. */
  lemma BusyRoundLowers(before: seq<Channel>, after: seq<Channel>, now: nat, lines: set<Line>, outcomes: seq<Outcome>)
    requires IsRound(before, after, now, lines, outcomes) && OneLine(before)
    ensures OneLine(after)
    ensures Busy(before, now, lines) ==> TotalWeight(after) < TotalWeight(before)
  {
    hide Next, Weight, OneShot, Repeats, LineOf, Marked, DueAt;
    forall i | 0 <= i < CHANNELS
      ensures Weight(after[i], i) <= Weight(before[i], i) + 1
      ensures Repeats(after[i], i) ==> Repeats(before[i], i) && LineOf(after[i], i) == LineOf(before[i], i)
      ensures !(Repeats(before[i], i) && OnLine(before[i], i, lines)) ==> Weight(after[i], i) <= Weight(before[i], i)
    {
      NextWeight(before[i], i, now, lines, outcomes[i]);
    }
    if Busy(before, now, lines) {
      var d :| 0 <= d < CHANNELS && DueAt(Marked(before[d], d, lines, now), now);
      NextWeight(before[d], d, now, lines, outcomes[d]);
    }
  }

  lemma WeightBounded(chs: seq<Channel>)
    requires |chs| == CHANNELS
    ensures TotalWeight(chs) <= MAX_WEIGHT
  {
  }

  // ----- Whole services -----

  /** The channels after a round. */
  function RoundOf(chs: seq<Channel>, now: nat, h: Happening): (after: seq<Channel>)
    requires |chs| == |h.outcomes| == CHANNELS
    ensures IsRound(chs, after, now, h.lines, h.outcomes)
  {
    seq(CHANNELS, i requires 0 <= i < CHANNELS => Next(chs[i], i, now, h.lines, h.outcomes[i]))
  }

  function MarkAll(chs: seq<Channel>, now: nat, lines: set<Line>): seq<Channel> {
    seq(|chs|, i requires 0 <= i < |chs| => Marked(chs[i], i, lines, now))
  }

  /** The cycle of the next round. */
  function TimeAfter(chs: seq<Channel>, now: nat, h: Happening): nat
    requires |chs| == |h.outcomes| == CHANNELS
  {
    now + ServiceCycles(MarkAll(chs, now, h.lines), now, h.outcomes)
  }

  ghost predicate Possible(hs: seq<Happening>) {
    forall h | h in hs :: |h.outcomes| == CHANNELS
  }

  /** Every one of these rounds transfers something, so that the loop goes on past all of them. */
  ghost predicate AllBusy(chs: seq<Channel>, now: nat, hs: seq<Happening>)
    requires |chs| == CHANNELS && Possible(hs)
    decreases |hs|
  {
    hs == [] || (Busy(chs, now, hs[0].lines) && AllBusy(RoundOf(chs, now, hs[0]), TimeAfter(chs, now, hs[0]), hs[1..]))
  }

  lemma {:induction false} BusyRoundsBounded(chs: seq<Channel>, now: nat, hs: seq<Happening>)
    requires |chs| == CHANNELS && Possible(hs) && OneLine(chs) && AllBusy(chs, now, hs)
    ensures |hs| <= TotalWeight(chs)
    decreases |hs|
  {
    hide Busy, OneLine, TotalWeight, IsRound;
    if hs != [] {
      var after := RoundOf(chs, now, hs[0]);
      BusyRoundLowers(chs, after, now, hs[0].lines, hs[0].outcomes);
      BusyRoundsBounded(after, TimeAfter(chs, now, hs[0]), hs[1..]);
    }
  }

  // ----- With two lines it need not -----

  /** A busy round lasts long enough for what it marked to be due in the next. */
  lemma BusyRoundTakesTime(chs: seq<Channel>, now: nat, h: Happening)
    requires |chs| == |h.outcomes| == CHANNELS && Busy(chs, now, h.lines)
    ensures TimeAfter(chs, now, h) >= now + 2
  {
    var marked := MarkAll(chs, now, h.lines);
    var i :| 0 <= i < CHANNELS && DueAt(Marked(chs[i], i, h.lines, now), now);
    assert DueAt(marked[i], now);
    BusyIffDue(marked, now, h.outcomes, CHANNELS);
  }

  /** A repeating channel stays one, whatever happens in a round. */
  lemma StaysRepeating(ch: Channel, i: nat, now: nat, lines: set<Line>, o: Outcome)
    requires Repeats(ch, i)
    ensures Repeats(Next(ch, i, now, lines, o), i) && LineOf(Next(ch, i, now, lines, o), i) == LineOf(ch, i)
    ensures OnLine(ch, i, lines) ==> DueAt(Next(ch, i, now, lines, o), now + 2)
    ensures !OnLine(ch, i, lines) ==> Marked(ch, i, lines, now) == ch
  {
  }

  /** While a due channel d transfers, the line of a repeating channel a fires: in the next round a is due. */
  lemma FireLine(chs: seq<Channel>, now: nat, d: nat, a: nat, b: nat, outcomes: seq<Outcome>)
    requires |chs| == |outcomes| == CHANNELS && d < CHANNELS && a < CHANNELS && b < CHANNELS
    requires Repeats(chs[a], a) && Repeats(chs[b], b) && DueAt(chs[d], now) && !OnLine(chs[d], d, {LineOf(chs[a], a).value})
    ensures var h := Happening({LineOf(chs[a], a).value}, outcomes);
      var after := RoundOf(chs, now, h);
      && Busy(chs, now, h.lines) && DueAt(after[a], TimeAfter(chs, now, h))
      && Repeats(after[a], a) && LineOf(after[a], a) == LineOf(chs[a], a)
      && Repeats(after[b], b) && LineOf(after[b], b) == LineOf(chs[b], b)
  {
    var h := Happening({LineOf(chs[a], a).value}, outcomes);
    assert Marked(chs[d], d, h.lines, now) == chs[d];
    assert OnLine(chs[a], a, h.lines);
    StaysRepeating(chs[a], a, now, h.lines, outcomes[a]);
    StaysRepeating(chs[b], b, now, h.lines, outcomes[b]);
    hide Marked, Next, Repeats, LineOf, OnLine, DueAt;
    assert Busy(chs, now, h.lines);
    BusyRoundTakesTime(chs, now, h);
    DueLater(RoundOf(chs, now, h)[a], now + 2, TimeAfter(chs, now, h));
  }

  /**
   With channels i and j repeating on different lines, and i due, the lines need only fire in turn: then every
   round is busy, for as many rounds as one likes and whatever the transfers cost.
   */
  lemma {:induction false} AlternatingLinesNeverEnd(chs: seq<Channel>, now: nat, i: nat, j: nat, costs: seq<seq<Outcome>>)
    returns (hs: seq<Happening>)
    requires |chs| == CHANNELS && i < CHANNELS && j < CHANNELS && Repeats(chs[i], i) && Repeats(chs[j], j)
    requires LineOf(chs[i], i) != LineOf(chs[j], j) && DueAt(chs[i], now)
    requires forall o | o in costs :: |o| == CHANNELS
    ensures |hs| == |costs| && Possible(hs) && (forall k | 0 <= k < |hs| :: hs[k].outcomes == costs[k])
    ensures AllBusy(chs, now, hs)
    decreases |costs|
  {
    if costs == [] {
      return [];
    }
    var h := Happening({LineOf(chs[j], j).value}, costs[0]);
    var after, later := RoundOf(chs, now, h), TimeAfter(chs, now, h);
    FireLine(chs, now, i, j, i, costs[0]);
    hide Busy, Repeats, LineOf, DueAt, IsRound;
    var rest := AlternatingLinesNeverEnd(after, later, j, i, costs[1..]);
    hs := [h] + rest;
    assert hs[1..] == rest;
  }

  lemma DueLater(ch: Channel, a: nat, b: nat)
    requires a <= b && DueAt(ch, a)
    ensures DueAt(ch, b)
  {
  }

  /** The same when another channel is due first: it transfers while the line of i fires. */
  lemma OneTransferThenAlternating(chs: seq<Channel>, now: nat, d: nat, i: nat, j: nat, costs: seq<seq<Outcome>>) returns (hs: seq<Happening>)
    requires |chs| == CHANNELS && d < CHANNELS && i < CHANNELS && j < CHANNELS && Repeats(chs[i], i) && Repeats(chs[j], j)
    requires LineOf(chs[i], i) != LineOf(chs[j], j) && DueAt(chs[d], now) && !OnLine(chs[d], d, {LineOf(chs[i], i).value})
    requires forall o | o in costs :: |o| == CHANNELS
    ensures |hs| == |costs| && Possible(hs) && (forall k | 0 <= k < |hs| :: hs[k].outcomes == costs[k])
    ensures AllBusy(chs, now, hs)
  {
    if costs == [] {
      return [];
    }
    var h := Happening({LineOf(chs[i], i).value}, costs[0]);
    var after, later := RoundOf(chs, now, h), TimeAfter(chs, now, h);
    FireLine(chs, now, d, i, j, costs[0]);
    hide Busy, Repeats, LineOf, DueAt, IsRound;
    var rest := AlternatingLinesNeverEnd(after, later, i, j, costs[1..]);
    hs := [h] + rest;
    assert hs[1..] == rest;
  }

  /** So two lines with repeating channels, and anything due, can keep the loop going for ever. */
  lemma TwoLinesNeverEnd(chs: seq<Channel>, now: nat, costs: seq<seq<Outcome>>) returns (hs: seq<Happening>)
    requires |chs| == CHANNELS && !OneLine(chs) && SomeDue(chs, now)
    requires forall o | o in costs :: |o| == CHANNELS
    ensures |hs| == |costs| && Possible(hs) && (forall k | 0 <= k < |hs| :: hs[k].outcomes == costs[k])
    ensures AllBusy(chs, now, hs)
  {
    hide AllBusy, DueAt, LineOf;
    var d :| 0 <= d < CHANNELS && DueAt(chs[d], now);
    var i, j :| 0 <= i < CHANNELS && 0 <= j < CHANNELS && Repeats(chs[i], i) && Repeats(chs[j], j) && LineOf(chs[i], i) != LineOf(chs[j], j);
    if OnLine(chs[d], d, {LineOf(chs[i], i).value}) {
      hs := OneTransferThenAlternating(chs, now, d, j, i, costs);
    } else {
      hs := OneTransferThenAlternating(chs, now, d, i, j, costs);
    }
  }

  /** With nothing due, the first round is idle, whichever lines fire in it. */
  lemma NothingDueNothingBusy(chs: seq<Channel>, now: nat, lines: set<Line>)
    requires !SomeDue(chs, now)
    ensures !Busy(chs, now, lines)
  {
    forall i | 0 <= i < |chs|
      ensures !DueAt(Marked(chs[i], i, lines, now), now)
    {
      assert !DueAt(chs[i], now);
    }
  }

  const FREE := Outcome(0, 0, 0, 0)

  /**
   The service loop is bound to end, whatever fires and whatever transfers cost, exactly if nothing is due when
   it starts or all repeating channels are on one line; and then after twenty busy rounds at most.
   */
  lemma ServiceEndsIffOneLine(chs: seq<Channel>, now: nat)
    requires |chs| == CHANNELS
    ensures (forall hs: seq<Happening> | Possible(hs) && AllBusy(chs, now, hs) :: |hs| <= MAX_WEIGHT)
       <==> !SomeDue(chs, now) || OneLine(chs)
  {
    hide Busy, SomeDue, OneLine, Marked;
    if !SomeDue(chs, now) || OneLine(chs) {
      forall hs: seq<Happening> | Possible(hs) && AllBusy(chs, now, hs)
        ensures |hs| <= MAX_WEIGHT
      {
        if OneLine(chs) {
          BusyRoundsBounded(chs, now, hs);
          WeightBounded(chs);
        } else if hs != [] {
          NothingDueNothingBusy(chs, now, hs[0].lines);
        }
      }
    } else {
      var free: seq<Outcome> := [FREE, FREE, FREE, FREE];
      var costs := seq(MAX_WEIGHT + 1, _ => free);
      var hs := TwoLinesNeverEnd(chs, now, costs);
      assert |hs| > MAX_WEIGHT && Possible(hs) && AllBusy(chs, now, hs);
    }
  }
}
