/** The key debouncer (platform/esp32s3/main/gba_input.cpp): one saturating counter a key, scanned every millisecond. */
module Debounce {
  import opened Basics

  const KEYS: nat := 10
  const SCAN_PERIOD_MS: u16 := 1

  datatype Key = Key(pressed: bool, counter: u16)

  /** How long a press, or a release, must show before it is believed. */
  datatype Thresholds = Thresholds(press: u16, release: u16)

  function Threshold(t: Thresholds, pressed: bool): u16 { if pressed then t.release else t.press }

  /** sat_add_u16; the subtraction is one of integers, so an addend above the cap gives the cap. */
  function SaturatingAdd(a: u16, b: u16, max: u16): (r: u16)
    ensures r == Min(a + b, max)
  {
    if a > max - b then max else a + b
  }

  /** One scan of one key; `active` is the raw level. */
  function Scan(t: Thresholds, key: Key, active: bool): Key {
    if active == key.pressed then
      key.(counter := if key.counter > SCAN_PERIOD_MS then key.counter - SCAN_PERIOD_MS else 0)
    else
      var threshold := Threshold(t, key.pressed);
      if threshold == 0 then Key(active, 0)
      else
        var counter := SaturatingAdd(key.counter, SCAN_PERIOD_MS, threshold);
        if counter >= threshold then Key(active, 0) else key.(counter := counter)
  }

  const RELEASED := Key(false, 0)

  function Run(t: Thresholds, samples: seq<bool>): Key {
    if samples == [] then RELEASED else Scan(t, Run(t, samples[..|samples| - 1]), samples[|samples| - 1])
  }

  // ----- What the counter means -----

  /** Mismatches less matches. */
  function Surplus(mismatches: seq<bool>): int {
    if mismatches == [] then 0
    else Surplus(mismatches[..|mismatches| - 1]) + (if mismatches[|mismatches| - 1] then 1 else -1)
  }

  /** The largest surplus of a window that ends now; the empty window has none. */
  ghost predicate IsBest(mismatches: seq<bool>, best: int) {
    && (exists k: nat :: k <= |mismatches| && Surplus(mismatches[k..]) == best)
    && forall k: nat | k <= |mismatches| :: Surplus(mismatches[k..]) <= best
  }

  lemma BestIsUnique(mismatches: seq<bool>, a: int, b: int)
    requires IsBest(mismatches, a) && IsBest(mismatches, b)
    ensures a == b
  {
  }

  lemma NoneIsBest()
    ensures IsBest([], 0)
  {
    var none: seq<bool> := [];
    assert none[0..] == none;
    assert Surplus(none[0..]) == 0;
  }

  lemma SurplusMore(mismatches: seq<bool>, x: bool, k: nat)
    requires k <= |mismatches|
    ensures Surplus((mismatches + [x])[k..]) == Surplus(mismatches[k..]) + (if x then 1 else -1)
    ensures Surplus((mismatches + [x])[|mismatches| + 1..]) == 0
  {
    var longer := (mismatches + [x])[k..];
    assert longer == mismatches[k..] + [x];
    assert longer[..|longer| - 1] == mismatches[k..];
  }

  /** One more sample moves the best surplus up or down by one, but not below zero. */
  lemma BestStep(mismatches: seq<bool>, best: int, x: bool)
    requires IsBest(mismatches, best)
    ensures IsBest(mismatches + [x], Max(0, best + (if x then 1 else -1)))
  {
    var longer := mismatches + [x];
    var next := Max(0, best + (if x then 1 else -1));
    forall k: nat | k <= |longer|
      ensures Surplus(longer[k..]) <= next
    {
      if k <= |mismatches| {
        SurplusMore(mismatches, x, k);
      } else {
        SurplusMore(mismatches, x, 0);
      }
    }
    var k: nat :| k <= |mismatches| && Surplus(mismatches[k..]) == best;
    SurplusMore(mismatches, x, k);
    assert Surplus(longer[k..]) == best + (if x then 1 else -1);
    assert Surplus(longer[|longer|..]) == 0;
  }

  // ----- Whole runs -----

  /** How many samples had been taken when the key last changed. */
  function LastFlip(t: Thresholds, samples: seq<bool>): (n: nat)
    ensures n <= |samples|
  {
    if samples == [] then 0
    else
      var earlier := samples[..|samples| - 1];
      if Run(t, samples).pressed != Run(t, earlier).pressed then |samples| else LastFlip(t, earlier)
  }

  /** For each sample since the last change, whether it disagreed with the key as it stands. */
  function MismatchesSinceFlip(t: Thresholds, samples: seq<bool>): seq<bool> {
    var recent := samples[LastFlip(t, samples)..];
    seq(|recent|, i requires 0 <= i < |recent| => recent[i] != Run(t, samples).pressed)
  }

  lemma MismatchesMore(t: Thresholds, samples: seq<bool>, active: bool)
    ensures var after := samples + [active];
      MismatchesSinceFlip(t, after) ==
        if Run(t, after).pressed != Run(t, samples).pressed then []
        else MismatchesSinceFlip(t, samples) + [active != Run(t, samples).pressed]
  {
    hide Run;
    var after := samples + [active];
    assert after[..|after| - 1] == samples;
    if Run(t, after).pressed == Run(t, samples).pressed {
      assert after[LastFlip(t, after)..] == samples[LastFlip(t, samples)..] + [active];
    }
  }

  lemma RunMore(t: Thresholds, samples: seq<bool>, active: bool)
    ensures Run(t, samples + [active]) == Scan(t, Run(t, samples), active)
  {
    assert (samples + [active])[..|samples|] == samples;
  }

  /**
   Over any samples the counter is the largest surplus of disagreement over the windows that end now and
   begin after the last change; and it stays below its threshold, unless that is zero.
   */
  lemma {:induction false} CounterIsBestSurplus(t: Thresholds, samples: seq<bool>)
    ensures IsBest(MismatchesSinceFlip(t, samples), Run(t, samples).counter)
    ensures var threshold := Threshold(t, Run(t, samples).pressed);
      if threshold == 0 then Run(t, samples).counter == 0 else Run(t, samples).counter < threshold
    decreases |samples|
  {
    hide IsBest, MismatchesSinceFlip, LastFlip;
    if samples == [] {
      AtStart(t);
    } else {
      var earlier, active := samples[..|samples| - 1], samples[|samples| - 1];
      assert samples == earlier + [active];
      var before := Run(t, earlier);
      CounterIsBestSurplus(t, earlier);
      MismatchesMore(t, earlier, active);
      RunMore(t, earlier, active);
      BestStep(MismatchesSinceFlip(t, earlier), before.counter, active != before.pressed);
      NoneIsBest();
    }
  }

  lemma AtStart(t: Thresholds)
    ensures IsBest(MismatchesSinceFlip(t, []), 0)
  {
    NoneIsBest();
    assert MismatchesSinceFlip(t, []) == [];
  }

  /** Some window that ends now and begins after the last change disagrees by at least `threshold`. */
  ghost predicate Reaches(mismatches: seq<bool>, threshold: int) {
    exists k: nat :: k <= |mismatches| && Surplus(mismatches[k..]) >= threshold
  }

  lemma ReachesIffBestDoes(mismatches: seq<bool>, best: int, threshold: int)
    requires IsBest(mismatches, best)
    ensures Reaches(mismatches, threshold) <==> best >= threshold
  {
  }

  /**
   A key changes exactly when a sample disagrees with it and some window since its last change then reaches
   the threshold, which none had reached before; with a threshold of zero, at once.
   */
  lemma FlipsExactlyAtThreshold(t: Thresholds, samples: seq<bool>, active: bool)
    ensures var key := Run(t, samples);
      var threshold := Threshold(t, key.pressed);
      var mismatches := MismatchesSinceFlip(t, samples);
      && (threshold > 0 ==> !Reaches(mismatches, threshold))
      && (Run(t, samples + [active]).pressed != key.pressed <==>
            active != key.pressed && Reaches(mismatches + [true], threshold))
  {
    hide IsBest, MismatchesSinceFlip, LastFlip, Reaches, Run;
    var key := Run(t, samples);
    var threshold := Threshold(t, key.pressed);
    var mismatches := MismatchesSinceFlip(t, samples);
    CounterIsBestSurplus(t, samples);
    RunMore(t, samples, active);
    ReachesIffBestDoes(mismatches, key.counter, threshold);
    BestStep(mismatches, key.counter, true);
    ReachesIffBestDoes(mismatches + [true], Max(0, key.counter + 1), threshold);
  }

  // ----- All keys -----

  class KeyScanner {
    const thresholds: Thresholds
    /** Which keys have a pin. */
    const mapped: seq<bool>
    var keys: seq<Key>
    /** The mask the emulator reads, as a bit for each key: set means released. */
    var released: seq<bool>

    ghost predicate Valid()
      reads this
    {
      |mapped| == |keys| == |released| == KEYS
    }

    constructor (thresholds: Thresholds, mapped: seq<bool>)
      requires |mapped| == KEYS
      ensures Valid() && keys == seq(KEYS, _ => RELEASED) && released == seq(KEYS, _ => true)
      ensures this.thresholds == thresholds && this.mapped == mapped
    {
      this.thresholds, this.mapped := thresholds, mapped;
      keys, released := seq(KEYS, _ => RELEASED), seq(KEYS, _ => true);
    }

    /** input_timer_callback; `low[i]` is the level of key i's pin, low when pressed. */
    method TimerCallback(low: seq<bool>)
      requires Valid() && |low| == KEYS
      modifies this
      ensures Valid()
      ensures forall i | 0 <= i < KEYS :: keys[i] == if mapped[i] then Scan(thresholds, old(keys)[i], low[i]) else old(keys)[i]
      ensures forall i | 0 <= i < KEYS :: released[i] == !(mapped[i] && keys[i].pressed)
    {
      hide Scan;
      for i := 0 to KEYS
        modifies this`keys
        invariant |keys| == KEYS
        invariant forall j | 0 <= j < KEYS ::
          keys[j] == if j < i && mapped[j] then Scan(thresholds, old(keys)[j], low[j]) else old(keys)[j]
      {
        if mapped[i] {
          ScanKey(i, low[i]);
        }
      }
      released := seq(KEYS, _ => true);
      for i := 0 to KEYS
        modifies this`released
        invariant |released| == KEYS
        invariant forall j | 0 <= j < KEYS :: released[j] == (j < i ==> !(mapped[j] && keys[j].pressed))
      {
        if mapped[i] && keys[i].pressed {
          released := released[i := false];
        }
      }
    }

    method ScanKey(i: nat, active: bool)
      requires i < |keys|
      modifies this`keys
      ensures keys == old(keys)[i := Scan(thresholds, old(keys)[i], active)]
    {
      var key := keys[i];
      if active == key.pressed {
        key := key.(counter := if key.counter > SCAN_PERIOD_MS then key.counter - SCAN_PERIOD_MS else 0);
      } else {
        var threshold := if key.pressed then thresholds.release else thresholds.press;
        if threshold == 0 {
          key := Key(active, 0);
        } else {
          key := key.(counter := SaturatingAdd(key.counter, SCAN_PERIOD_MS, threshold));
          if key.counter >= threshold {
            key := Key(active, 0);
          }
        }
      }
      keys := keys[i := key];
    }
  }
}
