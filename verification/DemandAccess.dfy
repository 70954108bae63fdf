/**
 How the ROM providers recognise streaming reads (src/core/rom_provider.cpp and
 platform/esp32s3/components/gba_core/esp32_rom_provider.cpp, note_demand_access).
 */
module DemandAccess {
  import opened Basics

  /** A demand read of `bytes` bytes. */
  datatype Access = Access(address: u32, bytes: nat)

  /** Where the last demand read ended, and how many in a row began where the one before them had ended. */
  datatype Demand = Demand(seen: bool, end: u32, run: u32)

  const NO_DEMAND := Demand(false, 0, 0)

  /** Addresses are 32 bits wide. */
  function End(a: Access): u32 {
    (a.address + a.bytes) % WORD_RANGE
  }

  predicate Follows(d: Demand, a: Access) {
    d.seen && a.address == d.end
  }

  function Noted(d: Demand, a: Access): Demand {
    Demand(true, End(a), if Follows(d, a) then (d.run + 1) % WORD_RANGE else 0)
  }

  function NotedAll(d: Demand, log: seq<Access>): Demand {
    if log == [] then d else Noted(NotedAll(d, log[..|log| - 1]), log[|log| - 1])
  }

  /** Read i begins where the read before it ended. */
  predicate Chained(log: seq<Access>, i: int) {
    0 < i < |log| && log[i].address == End(log[i - 1])
  }

  /** Exactly the last k reads are chained. */
  ghost predicate IsStreak(log: seq<Access>, k: nat) {
    && k < |log|
    && (forall i :: |log| - k <= i < |log| ==> Chained(log, i))
    && !Chained(log, |log| - 1 - k)
  }

  lemma StreakIsUnique(log: seq<Access>, j: nat, k: nat)
    requires IsStreak(log, j) && IsStreak(log, k)
    ensures j == k
  {
    assert !(j < k) by { assert j < k ==> |log| - k <= |log| - 1 - j; }
    assert !(k < j) by { assert k < j ==> |log| - j <= |log| - 1 - k; }
  }

  lemma OneReadMore(log: seq<Access>, k: nat)
    requires |log| > 1 && IsStreak(log[..|log| - 1], k)
    ensures IsStreak(log, if Chained(log, |log| - 1) then k + 1 else 0)
  {
    var before := log[..|log| - 1];
    assert forall i :: i < |log| - 1 ==> (Chained(before, i) <==> Chained(log, i));
  }

  /** From reset, the run counts the streak of chained reads that the log ends in, in 32 bits. */
  lemma {:induction false} RunCountsStreak(log: seq<Access>) returns (k: nat)
    requires log != []
    ensures IsStreak(log, k) && forall j :: IsStreak(log, j) ==> j == k
    ensures NotedAll(NO_DEMAND, log) == Demand(true, End(log[|log| - 1]), k % WORD_RANGE)
  {
    hide End;
    var n := |log| - 1;
    var before := log[..n];
    k := 0;
    if before == [] {
      assert NotedAll(NO_DEMAND, before) == NO_DEMAND;
    } else {
      var j := RunCountsStreak(before);
      OneReadMore(log, j);
      hide IsStreak;
      if Chained(log, n) {
        k := j + 1;
      }
    }
    forall j: nat | IsStreak(log, j)
      ensures j == k
    {
      StreakIsUnique(log, j, k);
    }
  }
}
