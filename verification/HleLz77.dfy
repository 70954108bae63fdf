/** The LZ77 decompression call of src/core/cpu.cpp (byte-wise form), in the token layout that code reads. */
module HleLz77 {
  import opened Basics
  import opened HleMemory
  import opened HleDecoders

  /** The two loops of hle_lz77_uncomp: `bits` tokens are left in the current flag byte. */
  function LzLoop(m: Memory, s: int, d: int, left: nat, flags: u8, bits: nat): (r: Memory)
    requires Sized(m)
    ensures Sized(r)
    decreases left, if bits == 0 then 1 else 0
  {
    if left == 0 then m
    else if bits == 0 then LzLoop(m, s + 1, d, left, Peek(m, s), 8)
    else if flags < 0x80 then LzLoop(Poke(m, d, Peek(m, s)), s + 1, d + 1, left - 1, flags * 2 % 0x100, bits - 1)
    else
      var lo, hi := Peek(m, s), Peek(m, s + 1);
      var disp, count := lo + hi / 0x10 * 0x100, Min(hi % 0x10 + 3, left);
      LzLoop(CopiedForward(m, d - disp - 1, d, count), s + 2, d + count, left - count, flags * 2 % 0x100, bits - 1)
  }

  /** hle_lz77_uncomp */
  function LzUncompressed(m: Memory, src: u32, dst: u32): (r: Memory)
    requires Sized(m)
  {
    LzLoop(m, src + 4, dst, HeaderSize(m, src), 0, 0)
  }

  // ----- Tokens and their layout -----

  /** A byte, or `count` bytes that repeat the output from `disp` + 1 bytes back. */
  datatype Token = Literal(value: u8) | Copy(disp: nat, count: nat)

  /** The tokens can follow n bytes of output. */
  ghost predicate TokensValid(n: nat, ts: seq<Token>)
    decreases |ts|
  {
    ts == []
    || (&& (ts[0].Copy? ==> ts[0].disp < n && ts[0].disp < 0x1000 && 3 <= ts[0].count <= 18)
        && TokensValid(n + Length(ts[0]), ts[1..]))
  }

  function Length(t: Token): nat { if t.Literal? then 1 else t.count }

  /** n bytes repeated from `disp` + 1 back; they may overlap what they produce. */
  function Repeated(output: seq<u8>, disp: nat, n: nat): (r: seq<u8>)
    requires disp < |output|
    ensures |r| == n
  {
    if n == 0 then []
    else
      var before := Repeated(output, disp, n - 1);
      before + [(output + before)[|output| + n - 2 - disp]]
  }

  /** What one token adds to the output. */
  function TokenBytes(output: seq<u8>, t: Token): (r: seq<u8>)
    requires t.Copy? ==> t.disp < |output|
    ensures |r| == Length(t)
  {
    if t.Literal? then [t.value] else Repeated(output, t.disp, t.count)
  }

  /** What the tokens add to the output. */
  function Expanded(output: seq<u8>, ts: seq<Token>): seq<u8>
    requires TokensValid(|output|, ts)
    decreases |ts|
  {
    if ts == [] then []
    else
      var bytes := TokenBytes(output, ts[0]);
      bytes + Expanded(output + bytes, ts[1..])
  }

  ghost predicate Encodable(ts: seq<Token>) {
    forall t | t in ts && t.Copy? :: t.disp < 0x1000 && 3 <= t.count <= 18
  }

  function TokenCode(t: Token): seq<u8>
    requires t.Copy? ==> t.disp < 0x1000 && 3 <= t.count <= 18
  {
    if t.Literal? then [t.value] else [t.disp % 0x100, t.disp / 0x100 * 0x10 + t.count - 3]
  }

  function GroupCode(ts: seq<Token>): seq<u8>
    requires Encodable(ts)
  {
    if ts == [] then [] else TokenCode(ts[0]) + GroupCode(ts[1..])
  }

  function Two(k: nat): (r: nat)
    ensures r > 0
  {
    if k == 0 then 1 else 2 * Two(k - 1)
  }

  /** One bit per token, the first the highest of k: set for a copy. */
  function FlagBits(ts: seq<Token>, k: nat): (bits: nat)
    requires |ts| <= k
    ensures bits < Two(k)
    decreases k
  {
    if ts == [] then 0 else (if ts[0].Copy? then Two(k - 1) else 0) + FlagBits(ts[1..], k - 1)
  }

  function Flags(ts: seq<Token>): (flags: u8)
    requires |ts| <= 8
  {
    assert Two(8) == 0x100;
    FlagBits(ts, 8)
  }

  /** Groups of eight tokens, each behind its flag byte. */
  function Encoded(ts: seq<Token>): seq<u8>
    requires Encodable(ts)
    decreases |ts|
  {
    if ts == [] then []
    else
      var n := Min(8, |ts|);
      [Flags(ts[..n])] + GroupCode(ts[..n]) + Encoded(ts[n..])
  }

  // ----- Decoding an encoding -----

  lemma {:induction false} FlagBitsDouble(ts: seq<Token>, k: nat)
    requires |ts| <= k
    ensures FlagBits(ts, k + 1) == 2 * FlagBits(ts, k)
    decreases k
  {
    if ts != [] {
      FlagBitsDouble(ts[1..], k - 1);
    }
  }

  /** The highest bit tells the first token's kind; shifting it out leaves the flags of the others. */
  lemma FlagsShift(ts: seq<Token>)
    requires 0 < |ts| <= 8
    ensures Flags(ts) >= 0x80 <==> ts[0].Copy?
    ensures Flags(ts) * 2 % 0x100 == Flags(ts[1..])
  {
    FlagBitsDouble(ts[1..], 7);
    assert Two(7) == 0x80;
  }

  /** A forward copy from within the output repeats it, byte by byte, over its own result. */
  lemma {:induction false} CopyRepeats(m: Memory, base: int, output: seq<u8>, disp: nat, n: nat)
    requires Sized(m) && Holds(m, base, output) && disp < |output| && Fits(base, |output| + n)
    ensures CopiedForward(m, base + |output| - disp - 1, base + |output|, n)
         == Written(m, base + |output|, Repeated(output, disp, n))
    decreases n
  {
    hide Holds, Written, Peek, Poke, Fits, Disjoint;
    var d := base + |output|;
    if n == 0 {
      WrittenNothing(m, d);
    } else {
      FitsWithin(base, |output| + n, base, |output| + n - 1);
      FitsWithin(base, |output| + n, d, n - 1);
      PartsDisjoint(base, |output|, n - 1);
      CopyRepeats(m, base, output, disp, n - 1);
      var before := Repeated(output, disp, n - 1);
      HeldThroughWrites(m, d, before, base, output);
      WrittenIsHeld(m, d, before);
      HoldsBoth(Written(m, d, before), base, output, before);
      PeekHeld(Written(m, d, before), base, output + before, |output| + n - 2 - disp);
      WrittenMore(m, d, before, (output + before)[|output| + n - 2 - disp]);
    }
  }

  /** A range that fits falls into disjoint parts. */
  lemma PartsDisjoint(a: int, m: nat, n: nat)
    requires Fits(a, m + n)
    ensures Disjoint(a, m, a + m, n)
  {
    hide Same, Work;
  }

  lemma WrittenIsHeld(m: Memory, a: int, bytes: seq<u8>)
    requires Sized(m) && Fits(a, |bytes|)
    ensures Holds(Written(m, a, bytes), a, bytes)
  {
    hide Written, Peek;
    forall x | a <= x < a + |bytes|
      ensures Peek(Written(m, a, bytes), x) == bytes[x - a]
    {
      WrittenHolds(m, a, bytes, x);
      assert Same(x, x);
    }
  }

  lemma HoldsBoth(m: Memory, a: int, x: seq<u8>, y: seq<u8>)
    requires Holds(m, a, x) && Holds(m, a + |x|, y)
    ensures Holds(m, a, x + y)
  {
    hide Peek;
  }

  /** Wanting fewer bytes of a repetition gives its beginning. */
  lemma {:induction false} RepeatedPrefix(output: seq<u8>, disp: nat, k: nat, n: nat)
    requires disp < |output| && k <= n
    ensures Repeated(output, disp, n)[..k] == Repeated(output, disp, k)
    decreases n
  {
    if k < n {
      RepeatedPrefix(output, disp, k, n - 1);
    }
  }

  lemma CodeOfCopy(disp: nat, count: nat)
    requires disp < 0x1000 && 3 <= count <= 18
    ensures var lo, hi := disp % 0x100, disp / 0x100 * 0x10 + count - 3;
      && 0 <= hi < 0x100 && lo + hi / 0x10 * 0x100 == disp && hi % 0x10 + 3 == count
  {
    var high := disp / 0x100;
    assert (high * 0x10 + count - 3) / 0x10 == high;
  }

  /** One token decodes to its bytes, or as many as are wanted. */
  lemma TokenDecodes(m: Memory, s: int, base: int, output: seq<u8>, ts: seq<Token>, left: nat, bits: nat)
    requires Sized(m) && 0 < |ts| <= 8 && TokensValid(|output|, ts) && left > 0 && bits > 0
    requires Holds(m, base, output) && Fits(base, |output| + left) && Holds(m, s, TokenCode(ts[0]))
    ensures var d, t := base + |output|, ts[0];
      var n := Min(Length(t), left);
      LzLoop(m, s, d, left, Flags(ts), bits)
        == LzLoop(Written(m, d, TokenBytes(output, t)[..n]), s + |TokenCode(t)|, d + n, left - n, Flags(ts[1..]), bits - 1)
  {
    hide Holds, Written, Flags, CopiedForward, Peek, Poke, Fits;
    var d, t := base + |output|, ts[0];
    FlagsShift(ts);
    PeekHeld(m, s, TokenCode(t), 0);
    if t.Literal? {
      WrittenNothing(m, d);
      WrittenMore(m, d, [], t.value);
      assert TokenBytes(output, t)[..1] == [] + [t.value];
    } else {
      PeekHeld(m, s, TokenCode(t), 1);
      CodeOfCopy(t.disp, t.count);
      var n := Min(t.count, left);
      RepeatedPrefix(output, t.disp, n, t.count);
      FitsWithin(base, |output| + left, base, |output| + n);
      CopyRepeats(m, base, output, t.disp, n);
    }
  }

  lemma {:induction false} ValidIsEncodable(n: nat, ts: seq<Token>)
    requires TokensValid(n, ts)
    ensures Encodable(ts)
    decreases |ts|
  {
    if ts != [] {
      ValidIsEncodable(n + Length(ts[0]), ts[1..]);
      assert forall t | t in ts :: t == ts[0] || t in ts[1..];
    }
  }

  /** The code of the tokens still to come: those of the current group, then whole groups. */
  function PendingCode(ts: seq<Token>, rest: seq<Token>): seq<u8>
    requires Encodable(ts) && Encodable(rest)
  {
    GroupCode(ts) + Encoded(rest)
  }

  lemma PendingToken(ts: seq<Token>, rest: seq<Token>)
    requires Encodable(ts) && Encodable(rest) && ts != []
    ensures Encodable(ts[1..]) && PendingCode(ts, rest) == TokenCode(ts[0]) + PendingCode(ts[1..], rest)
  {
    assert TokenCode(ts[0]) + GroupCode(ts[1..]) + Encoded(rest) == TokenCode(ts[0]) + (GroupCode(ts[1..]) + Encoded(rest));
  }

  lemma PendingGroup(rest: seq<Token>)
    requires Encodable(rest) && rest != []
    ensures var n := Min(8, |rest|);
      && Encodable(rest[..n]) && Encodable(rest[n..])
      && PendingCode([], rest) == [Flags(rest[..n])] + PendingCode(rest[..n], rest[n..])
  {
    hide Flags, TokenCode, GroupCode;
    var n := Min(8, |rest|);
    SplitEncodable(rest, n);
    NothingPending(rest);
    ConcatAssociates([Flags(rest[..n])], GroupCode(rest[..n]), Encoded(rest[n..]));
  }

  lemma SplitEncodable(ts: seq<Token>, n: nat)
    requires Encodable(ts) && n <= |ts|
    ensures Encodable(ts[..n]) && Encodable(ts[n..])
  {
  }

  lemma NothingPending(rest: seq<Token>)
    requires Encodable(rest)
    ensures PendingCode([], rest) == Encoded(rest)
  {
    hide Encoded;
    assert [] + Encoded(rest) == Encoded(rest);
  }

  /**
   In the middle of a group, with the output so far in place: decoding the rest of the code writes what
   the rest of the tokens stand for, cut off at the size asked for.
   */
  lemma {:induction false} LzDecodes(m: Memory, s: int, base: int, output: seq<u8>, ts: seq<Token>, rest: seq<Token>, left: nat, bits: nat)
    requires Sized(m) && |ts| <= 8 && |ts| <= bits && (rest != [] ==> bits == |ts|)
    requires TokensValid(|output|, ts + rest) && Encodable(ts) && Encodable(rest)
    requires left <= |Expanded(output, ts + rest)|
    requires Holds(m, base, output) && Holds(m, s, PendingCode(ts, rest))
    requires Fits(base, |output| + left) && Disjoint(s, |PendingCode(ts, rest)|, base + |output|, left)
    ensures LzLoop(m, s, base + |output|, left, Flags(ts), bits)
         == Written(m, base + |output|, Expanded(output, ts + rest)[..left])
    decreases |ts| + |rest|, if bits == 0 then 1 else 0
  {
    hide Holds, Written, Flags, PendingCode, TokenBytes, TokenCode, LzLoop, Expanded, TokensValid, Encodable, Encoded, GroupCode,
         Fits, Disjoint, Peek, Poke;
    var d := base + |output|;
    if left == 0 {
      LzNothingLeft(m, s, d, Flags(ts), bits);
      WrittenNothing(m, d);
      assert Expanded(output, ts + rest)[..0] == [];
    } else if ts == [] {
      assert ts + rest == rest;
      NothingExpanded(output);
      var n := Min(8, |rest|);
      var group, others := rest[..n], rest[n..];
      PendingGroup(rest);
      HoldsTail(m, s, [Flags(group)], PendingCode(group, others));
      PeekHeld(m, s, [Flags(group)], 0);
      assert group + others == rest;
      DisjointWithin(s, |PendingCode(ts, rest)|, d, left, s + 1, |PendingCode(group, others)|, d, left);
      LzDecodes(m, s + 1, base, output, group, others, left, 8);
      NextGroup(m, s, d, left, Flags(ts), Flags(group));
    } else {
      FirstToken(output, ts, rest);
      var t, code := ts[0], TokenCode(ts[0]);
      var bytes := TokenBytes(output, t);
      var n := Min(|bytes|, left);
      PendingToken(ts, rest);
      var pending := |PendingCode(ts, rest)|;
      DisjointWithin(s, pending, d, left, s + |code|, pending - |code|, d, n);
      DisjointWithin(s, pending, d, left, s + |code|, pending - |code|, d + n, left - n);
      FitsWithin(base, |output| + left, d, n);
      FitsWithin(base, |output| + left, base, |output| + n);
      PartsDisjoint(base, |output|, n);
      HoldsTail(m, s, code, PendingCode(ts[1..], rest));
      ValidPrefix(|output|, ts, rest);
      TokenDecodes(m, s, base, output, ts, left, bits);
      var after := Written(m, d, bytes[..n]);
      if n == left {
        LzNothingLeft(after, s + |code|, d + n, Flags(ts[1..]), bits - 1);
        assert (bytes + Expanded(output + bytes, ts[1..] + rest))[..left] == bytes[..left];
      } else {
        assert bytes[..n] == bytes;
        HeldThroughWrites(m, d, bytes, s + |code|, PendingCode(ts[1..], rest));
        HeldThroughWrites(m, d, bytes, base, output);
        WrittenIsHeld(m, d, bytes);
        HoldsBoth(after, base, output, bytes);
        LzDecodes(after, s + |code|, base, output + bytes, ts[1..], rest, left - n, bits - 1);
        var all := Expanded(output + bytes, ts[1..] + rest);
        WrittenConcat(m, d, bytes, all[..left - n]);
        assert (bytes + all)[..left] == bytes + all[..left - n];
      }
    }
  }

  lemma DisjointWithin(a: int, m: nat, b: int, n: nat, a1: int, m1: nat, b1: int, n1: nat)
    requires Disjoint(a, m, b, n) && a <= a1 && a1 + m1 <= a + m && b <= b1 && b1 + n1 <= b + n
    ensures Disjoint(a1, m1, b1, n1)
  {
    hide Same;
  }

  lemma NothingExpanded(output: seq<u8>)
    ensures TokensValid(|output|, []) && Expanded(output, []) == []
  {
  }

  lemma FirstToken(output: seq<u8>, ts: seq<Token>, rest: seq<Token>)
    requires ts != [] && TokensValid(|output|, ts + rest)
    ensures ts[0].Copy? ==> ts[0].disp < |output| && ts[0].disp < 0x1000 && 3 <= ts[0].count <= 18
    ensures var bytes := TokenBytes(output, ts[0]);
      && TokensValid(|output + bytes|, ts[1..] + rest)
      && Expanded(output, ts + rest) == bytes + Expanded(output + bytes, ts[1..] + rest)
  {
    assert (ts + rest)[0] == ts[0] && (ts + rest)[1..] == ts[1..] + rest;
  }

  lemma NextGroup(m: Memory, s: int, d: int, left: nat, flags: u8, next: u8)
    requires Sized(m) && left > 0 && Peek(m, s) == next
    ensures LzLoop(m, s, d, left, flags, 0) == LzLoop(m, s + 1, d, left, next, 8)
  {
  }

  lemma LzNothingLeft(m: Memory, s: int, d: int, flags: u8, bits: nat)
    requires Sized(m)
    ensures LzLoop(m, s, d, 0, flags, bits) == m
  {
  }

  lemma {:induction false} ValidPrefix(n: nat, ts: seq<Token>, rest: seq<Token>)
    requires TokensValid(n, ts + rest)
    ensures TokensValid(n, ts)
    decreases |ts|
  {
    if ts != [] {
      assert (ts + rest)[1..] == ts[1..] + rest;
      ValidPrefix(n + Length(ts[0]), ts[1..], rest);
    }
  }

  /**
   The call decodes whatever token list follows its header, overlapping copies included: exactly as many
   bytes as the header asks for are written, and they are the beginning of what the tokens stand for.
   */
  lemma LzUncompressInverts(m: Memory, src: u32, dst: u32, ts: seq<Token>)
    requires Sized(m) && TokensValid(0, ts) && HeaderSize(m, src) <= |Expanded([], ts)|
    requires (ValidIsEncodable(0, ts);
      Holds(m, src + 4, Encoded(ts)) && Apart(src + 4, |Encoded(ts)|, dst, HeaderSize(m, src)))
    ensures LzUncompressed(m, src, dst) == Written(m, dst, Expanded([], ts)[..HeaderSize(m, src)])
  {
    hide Holds, Written, LzLoop, HeaderSize, Encoded, Expanded, TokensValid;
    ValidIsEncodable(0, ts);
    assert [] + ts == ts;
    assert PendingCode([], ts) == Encoded(ts);
    NothingHeld(m, dst);
    LzDecodes(m, src + 4, dst, [], [], ts, HeaderSize(m, src), 0);
    assert Flags([]) == 0;
  }

  lemma NothingHeld(m: Memory, a: u32)
    requires Sized(m)
    ensures Holds(m, a, [])
  {
  }
}
