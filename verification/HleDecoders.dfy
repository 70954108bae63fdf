/**
 The byte-wise BIOS decompression calls of src/core/cpu.cpp: run lengths, differences and LZ77. Each is a
 function of memory; what it does to an encoding is proved about that function.
 */
module HleDecoders {
  import opened Basics
  import opened HleMemory

  lemma WrittenConcat(m: Memory, a: int, x: seq<u8>, y: seq<u8>)
    requires Sized(m)
    ensures Written(Written(m, a, x), a + |x|, y) == Written(m, a, x + y)
    decreases |y|
  {
    if y == [] {
      assert x + y == x;
    } else {
      WrittenConcat(m, a, x, y[..|y| - 1]);
      assert (x + y)[..|x + y| - 1] == x + y[..|y| - 1];
    }
  }

  /** The n bytes from b on are work RAM, each once, and none of them is among the m bytes from a on. */
  ghost predicate Apart(a: int, m: nat, b: int, n: nat) {
    Fits(b, n) && Disjoint(a, m, b, n)
  }

  lemma ApartWithin(a: int, m: nat, b: int, n: nat, a1: int, m1: nat, b1: int, n1: nat)
    requires Apart(a, m, b, n) && a <= a1 && a1 + m1 <= a + m && b <= b1 && b1 + n1 <= b + n
    ensures Apart(a1, m1, b1, n1)
  {
    hide Same, Work;
    FitsWithin(b, n, b1, n1);
  }

  // ----- Differences -----

  /** Memory and accumulator after i bytes of hle_diff_8bit_unfilter. */
  function Unfiltered(m: Memory, src: int, dst: int, i: nat): (r: (Memory, u8))
    requires Sized(m)
    ensures Sized(r.0)
  {
    if i == 0 then (m, 0)
    else
      var (before, sum) := Unfiltered(m, src, dst, i - 1);
      var next := (sum + Peek(before, src + i - 1)) % 0x100;
      (Poke(before, dst + i - 1, next), next)
  }

  /** hle_diff_8bit_unfilter */
  function Unfilter8(m: Memory, src: u32, dst: u32): (r: Memory)
    requires Sized(m)
    ensures Sized(r)
  {
    Unfiltered(m, src + 4, dst, HeaderSize(m, src)).0
  }

  function Difference(before: u8, value: u8): u8 {
    var a: int, b: int := value, before;
    (a - b) % 0x100
  }

  /** Each byte less the one before it. */
  function Differences(data: seq<u8>): (r: seq<u8>)
    ensures |r| == |data|
  {
    seq(|data|, i requires 0 <= i < |data| => Difference(if i == 0 then 0 else data[i - 1], data[i]))
  }

  lemma SumOfDifference(before: u8, value: u8)
    ensures (before + Difference(before, value)) % 0x100 == value
  {
  }

  lemma {:induction false} UnfilteredIsData(m: Memory, src: int, dst: int, data: seq<u8>, i: nat)
    requires Sized(m) && Holds(m, src, Differences(data)) && Apart(src, |data|, dst, |data|) && i <= |data|
    ensures Unfiltered(m, src, dst, i) == (Written(m, dst, data[..i]), if i == 0 then 0 else data[i - 1])
  {
    hide Written, Holds, Peek, Poke, Difference, Fits, Disjoint;
    if i == 0 {
      WrittenNothing(m, dst);
      assert data[..0] == [];
    } else {
      UnfilteredIsData(m, src, dst, data, i - 1);
      ApartWithin(src, |data|, dst, |data|, src, |data|, dst, i - 1);
      var before := Written(m, dst, data[..i - 1]);
      HeldThroughWrites(m, dst, data[..i - 1], src, Differences(data));
      PeekHeld(before, src, Differences(data), i - 1);
      SumOfDifference(if i == 1 then 0 else data[i - 2], data[i - 1]);
      WrittenMore(m, dst, data[..i - 1], data[i - 1]);
      assert data[..i] == data[..i - 1] + [data[i - 1]];
    }
  }

  lemma WrittenNothing(m: Memory, a: int)
    requires Sized(m)
    ensures Written(m, a, []) == m
  {
  }

  lemma PeekHeld(m: Memory, a: int, bytes: seq<u8>, i: nat)
    requires Sized(m) && Holds(m, a, bytes) && i < |bytes|
    ensures Peek(m, a + i) == bytes[i]
  {
    hide Peek;
  }

  /** Unfiltering undoes differencing. */
  lemma UnfilterInvertsDifferences(m: Memory, src: u32, dst: u32, data: seq<u8>)
    requires Sized(m) && Holds(m, src + 4, Differences(data)) && HeaderSize(m, src) == |data|
    requires Apart(src + 4, |data|, dst, |data|)
    ensures Unfilter8(m, src, dst) == Written(m, dst, data)
  {
    hide Unfiltered, Written, Holds, HeaderSize, Differences;
    UnfilteredIsData(m, src + 4, dst, data, |data|);
    assert data[..|data|] == data;
  }

  // ----- Run lengths -----

  /** n copies of one byte from d on */
  function Filled(m: Memory, d: int, value: u8, n: nat): (r: Memory)
    requires Sized(m)
    ensures Sized(r)
  {
    if n == 0 then m else Poke(Filled(m, d, value, n - 1), d + n - 1, value)
  }

  /** n bytes copied forwards, one at a time, so that later ones may read what earlier ones wrote */
  function CopiedForward(m: Memory, a: int, d: int, n: nat): (r: Memory)
    requires Sized(m)
    ensures Sized(r)
  {
    if n == 0 then m
    else
      var before := CopiedForward(m, a, d, n - 1);
      Poke(before, d + n - 1, Peek(before, a + n - 1))
  }

  /** The loop of hle_rl_uncomp. */
  function RlLoop(m: Memory, s: int, d: int, left: nat): (r: Memory)
    requires Sized(m)
    ensures Sized(r)
    decreases left
  {
    if left == 0 then m
    else
      var flag := Peek(m, s);
      if flag >= 0x80 then
        var n := Min(flag - 0x80 + 3, left);
        RlLoop(Filled(m, d, Peek(m, s + 1), n), s + 2, d + n, left - n)
      else
        var n := Min(flag + 1, left);
        RlLoop(CopiedForward(m, s + 1, d, n), s + 1 + n, d + n, left - n)
  }

  /** hle_rl_uncomp */
  function RlUncompressed(m: Memory, src: u32, dst: u32): (r: Memory)
    requires Sized(m)
  {
    RlLoop(m, src + 4, dst, HeaderSize(m, src))
  }

  datatype Run = Repeat(value: u8, times: nat) | Plain(bytes: seq<u8>)

  ghost predicate RunValid(run: Run) {
    match run
    case Repeat(_, times) => 3 <= times <= 130
    case Plain(bytes) => 1 <= |bytes| <= 128
  }

  function RunBytes(run: Run): seq<u8> {
    match run
    case Repeat(value, times) => seq(times, _ => value)
    case Plain(bytes) => bytes
  }

  function RunCode(run: Run): seq<u8>
    requires RunValid(run)
  {
    match run
    case Repeat(value, times) => [0x80 + times - 3, value]
    case Plain(bytes) => [|bytes| - 1] + bytes
  }

  ghost predicate RunsValid(runs: seq<Run>) {
    forall run | run in runs :: RunValid(run)
  }

  function RlExpanded(runs: seq<Run>): seq<u8> {
    if runs == [] then [] else RunBytes(runs[0]) + RlExpanded(runs[1..])
  }

  function RlEncoded(runs: seq<Run>): seq<u8>
    requires RunsValid(runs)
  {
    if runs == [] then [] else RunCode(runs[0]) + RlEncoded(runs[1..])
  }

  lemma {:induction false} FilledIsWritten(m: Memory, d: int, value: u8, n: nat)
    requires Sized(m)
    ensures Filled(m, d, value, n) == Written(m, d, seq(n, _ => value))
  {
    if n > 0 {
      hide Poke;
      FilledIsWritten(m, d, value, n - 1);
      var shorter: seq<u8> := seq(n - 1, _ => value);
      WrittenMore(m, d, shorter, value);
      assert seq(n, _ => value) == shorter + [value];
    }
  }

  lemma {:induction false} CopyOfHeldIsWritten(m: Memory, a: int, d: int, bytes: seq<u8>, n: nat)
    requires Sized(m) && Holds(m, a, bytes) && n <= |bytes| && Apart(a, |bytes|, d, n)
    ensures CopiedForward(m, a, d, n) == Written(m, d, bytes[..n])
    decreases n
  {
    hide Written, Holds, Peek, Poke, Fits, Disjoint;
    if n == 0 {
      assert bytes[..0] == [];
      WrittenNothing(m, d);
    } else {
      ApartWithin(a, |bytes|, d, n, a, |bytes|, d, n - 1);
      CopyOfHeldIsWritten(m, a, d, bytes, n - 1);
      HeldThroughWrites(m, d, bytes[..n - 1], a, bytes);
      PeekHeld(Written(m, d, bytes[..n - 1]), a, bytes, n - 1);
      WrittenMore(m, d, bytes[..n - 1], bytes[n - 1]);
      assert bytes[..n] == bytes[..n - 1] + [bytes[n - 1]];
    }
  }

  /** One run decodes to its bytes, or as many as are wanted. */
  lemma RunDecodes(m: Memory, s: int, d: int, run: Run, left: nat)
    requires Sized(m) && RunValid(run) && Holds(m, s, RunCode(run)) && left > 0
    requires Apart(s, |RunCode(run)|, d, left)
    ensures var n := Min(|RunBytes(run)|, left);
      var after := Written(m, d, RunBytes(run)[..n]);
      n < left ==> RlLoop(m, s, d, left) == RlLoop(after, s + |RunCode(run)|, d + n, left - n)
    ensures left <= |RunBytes(run)| ==> RlLoop(m, s, d, left) == Written(m, d, RunBytes(run)[..left])
  {
    hide Written, Holds, Filled, CopiedForward, Peek, Poke, Fits, Disjoint;
    var n := Min(|RunBytes(run)|, left);
    PeekHeld(m, s, RunCode(run), 0);
    match run {
      case Repeat(value, times) =>
        PeekHeld(m, s, RunCode(run), 1);
        FilledIsWritten(m, d, value, n);
        assert seq(n, _ => value) == RunBytes(run)[..n];
      case Plain(bytes) =>
        HoldsTail(m, s, [|bytes| - 1], bytes);
        ApartWithin(s, |RunCode(run)|, d, left, s + 1, |bytes|, d, n);
        CopyOfHeldIsWritten(m, s + 1, d, bytes, n);
    }
  }

  /** Decoding any run-length encoding gives the bytes it stands for, cut off at the size asked for. */
  lemma {:induction false} RlDecodes(m: Memory, s: int, d: int, runs: seq<Run>, left: nat)
    requires Sized(m) && RunsValid(runs) && Holds(m, s, RlEncoded(runs)) && left <= |RlExpanded(runs)|
    requires Apart(s, |RlEncoded(runs)|, d, left)
    ensures RlLoop(m, s, d, left) == Written(m, d, RlExpanded(runs)[..left])
    decreases |runs|
  {
    hide Written, Holds, RlLoop, RunBytes, RunCode, Fits, Disjoint;
    if left == 0 {
      NothingLeft(m, s, d);
      WrittenNothing(m, d);
      assert RlExpanded(runs)[..0] == [];
    } else {
      var run, rest := runs[0], runs[1..];
      var bytes, code := RunBytes(run), RunCode(run);
      HoldsTail(m, s, code, RlEncoded(rest));
      ApartWithin(s, |RlEncoded(runs)|, d, left, s, |code|, d, left);
      RunDecodes(m, s, d, run, left);
      if left <= |bytes| {
        assert RlExpanded(runs)[..left] == bytes[..left];
      } else {
        var after := Written(m, d, bytes);
        assert bytes[..|bytes|] == bytes;
        ApartWithin(s, |RlEncoded(runs)|, d, left, s + |code|, |RlEncoded(rest)|, d, |bytes|);
        HeldThroughWrites(m, d, bytes, s + |code|, RlEncoded(rest));
        ApartWithin(s, |RlEncoded(runs)|, d, left, s + |code|, |RlEncoded(rest)|, d + |bytes|, left - |bytes|);
        RlDecodes(after, s + |code|, d + |bytes|, rest, left - |bytes|);
        WrittenConcat(m, d, bytes, RlExpanded(rest)[..left - |bytes|]);
        assert RlExpanded(runs)[..left] == bytes + RlExpanded(rest)[..left - |bytes|];
      }
    }
  }

  lemma NothingLeft(m: Memory, s: int, d: int)
    requires Sized(m)
    ensures RlLoop(m, s, d, 0) == m
  {
  }

  /** The call decodes whatever run-length encoding follows its header. */
  lemma RlUncompressInverts(m: Memory, src: u32, dst: u32, runs: seq<Run>)
    requires Sized(m) && RunsValid(runs) && Holds(m, src + 4, RlEncoded(runs)) && HeaderSize(m, src) <= |RlExpanded(runs)|
    requires Apart(src + 4, |RlEncoded(runs)|, dst, HeaderSize(m, src))
    ensures RlUncompressed(m, src, dst) == Written(m, dst, RlExpanded(runs)[..HeaderSize(m, src)])
  {
    RlDecodes(m, src + 4, dst, runs, HeaderSize(m, src));
  }
}
