/**
 Searching a ROM that can only be read in chunks (src/core/rom_provider.cpp contains, src/core/cartridge.cpp
 scan_rom_features): the tail of each chunk is carried over, so that a match may straddle two.
 */
module RomSearch {
  import opened Basics
  import opened RomBytes

  predicate MatchesAt(s: seq<u8>, p: nat, needle: seq<u8>) {
    p + |needle| <= |s| && forall k | 0 <= k < |needle| :: s[p + k] == needle[k]
  }

  /** The needle occurs in s, ending at `upto` or before. */
  ghost predicate OccursBy(s: seq<u8>, needle: seq<u8>, upto: nat) {
    exists p: nat :: p + |needle| <= upto && MatchesAt(s, p, needle)
  }

  ghost predicate Occurs(s: seq<u8>, needle: seq<u8>) {
    OccursBy(s, needle, |s|)
  }

  // ----- Reads that go wrong: the paging providers deliver RomBytes.Shown -----

  /** The needle occurs in the ROM, clear of the missing bytes. */
  ghost predicate OccursIntact(rom: seq<u8>, needle: seq<u8>, missing: set<nat>) {
    exists p: nat :: MatchesAt(rom, p, needle) && Present(p, |needle|, missing)
  }

  predicate Present(p: nat, n: nat, missing: set<nat>) {
    forall i | p <= i < p + n :: i !in missing
  }

  /** A needle without 0xFF is shown exactly where it is and can be read. */
  lemma ShownIffIntact(rom: seq<u8>, needle: seq<u8>, missing: set<nat>)
    requires 0xFF !in needle
    ensures Occurs(Shown(rom, missing), needle) <==> OccursIntact(rom, needle, missing)
  {
    var shown := Shown(rom, missing);
    if Occurs(shown, needle) {
      var p: nat :| p + |needle| <= |shown| && MatchesAt(shown, p, needle);
      forall i | p <= i < p + |needle|
        ensures i !in missing && rom[i] == needle[i - p]
      {
        assert shown[p + (i - p)] == needle[i - p] && needle[i - p] in needle;
      }
      assert MatchesAt(rom, p, needle) && Present(p, |needle|, missing);
    }
    if OccursIntact(rom, needle, missing) {
      var p: nat :| MatchesAt(rom, p, needle) && Present(p, |needle|, missing);
      assert MatchesAt(shown, p, needle);
    }
  }

  lemma IntactOccurs(rom: seq<u8>, needle: seq<u8>, missing: set<nat>)
    ensures OccursIntact(rom, needle, missing) ==> Occurs(rom, needle)
    ensures missing == {} ==> (OccursIntact(rom, needle, missing) <==> Occurs(rom, needle)) && Shown(rom, missing) == rom
  {
  }

  lemma OnlyItself(s: seq<u8>, needle: seq<u8>)
    requires |s| == |needle|
    ensures Occurs(s, needle) ==> s == needle
  {
    if Occurs(s, needle) {
      var p: nat :| p + |needle| <= |s| && MatchesAt(s, p, needle);
      assert forall k | 0 <= k < |needle| :: s[p + k] == needle[k];
    }
  }

  /** So nothing is found that is not there, whatever cannot be read, exactly if the needle is free of 0xFF. */
  lemma NothingInventedIff(needle: seq<u8>)
    ensures (forall rom: seq<u8>, missing: set<nat> :: Occurs(Shown(rom, missing), needle) ==> Occurs(rom, needle))
       <==> 0xFF !in needle
  {
    if 0xFF !in needle {
      forall rom: seq<u8>, missing: set<nat> | Occurs(Shown(rom, missing), needle)
        ensures Occurs(rom, needle)
      {
        ShownIffIntact(rom, needle, missing);
        IntactOccurs(rom, needle, missing);
      }
    } else {
      var j: nat :| j < |needle| && needle[j] == 0xFF;
      var rom := needle[j := 0];
      assert Shown(rom, {j}) == needle;
      assert MatchesAt(needle, 0, needle);
      OnlyItself(rom, needle);
    }
  }

  // ----- Carrying a tail from chunk to chunk -----

  /** Searching only the new chunk and a long enough carried tail misses nothing and invents nothing. */
  lemma WindowExtends(rom: seq<u8>, needle: seq<u8>, offset: nat, carry: nat, chunk: nat)
    requires |needle| > 0 && carry <= offset && offset + chunk <= |rom|
    requires carry == offset || carry + 1 >= |needle|
    ensures var window := Window(rom, offset, carry, chunk);
      OccursBy(rom, needle, offset + chunk) <==> OccursBy(rom, needle, offset) || Occurs(window, needle)
  {
    var window := rom[offset - carry..offset + chunk];
    if OccursBy(rom, needle, offset + chunk) && !OccursBy(rom, needle, offset) {
      var p: nat :| p + |needle| <= offset + chunk && MatchesAt(rom, p, needle);
      assert p >= offset - carry;
      assert MatchesAt(window, p - (offset - carry), needle);
    }
    if Occurs(window, needle) {
      var p: nat :| p + |needle| <= |window| && MatchesAt(window, p, needle);
      forall k | 0 <= k < |needle|
        ensures rom[offset - carry + p + k] == needle[k]
      {
        assert window[p + k] == needle[k];
      }
      assert MatchesAt(rom, offset - carry + p, needle);
    }
  }

  /** std::search over the first `valid` bytes of a buffer */
  method Search(buffer: array<u8>, valid: nat, needle: seq<u8>) returns (found: bool)
    requires valid <= buffer.Length && |needle| > 0
    ensures found <==> Occurs(buffer[..valid], needle)
  {
    var p := 0;
    while p + |needle| <= valid
      invariant forall q: nat :: q < p ==> !MatchesAt(buffer[..valid], q, needle)
    {
      var k := 0;
      while k < |needle| && buffer[p + k] == needle[k]
        invariant 0 <= k <= |needle|
        invariant forall j | 0 <= j < k :: buffer[..valid][p + j] == needle[j]
      {
        k := k + 1;
      }
      if k == |needle| {
        assert MatchesAt(buffer[..valid], p, needle);
        return true;
      }
      assert buffer[..valid][p + k] != needle[k];
      p := p + 1;
    }
    found := false;
  }

  /** read_bytes into the buffer; it refuses the offsets in `fails`, and shows the `missing` bytes as 0xFF. */
  method ReadBytes(rom: seq<u8>, offset: nat, buffer: array<u8>, at: nat, n: nat, fails: set<nat>, missing: set<nat>) returns (ok: bool)
    requires offset + n <= |rom| && at + n <= buffer.Length
    modifies buffer
    ensures ok <==> offset !in fails
    ensures ok ==> buffer[..at + n] == old(buffer[..at]) + Shown(rom, missing)[offset..offset + n]
  {
    if offset in fails {
      return false;
    }
    for k := 0 to n
      invariant buffer[..at + k] == old(buffer[..at]) + Shown(rom, missing)[offset..offset + k]
    {
      buffer[at + k] := if offset + k in missing then 0xFF else rom[offset + k];
    }
    ok := true;
  }

  /** memmove of the last `carry` of `valid` bytes to the front */
  method CarryTail(buffer: array<u8>, valid: nat, carry: nat)
    requires carry <= valid <= buffer.Length
    modifies buffer
    ensures buffer[..carry] == old(buffer[valid - carry..valid])
  {
    ghost var before := buffer[..];
    for k := 0 to carry
      invariant forall i | 0 <= i < k :: buffer[i] == before[valid - carry + i]
      invariant forall i | valid - carry + k <= i < valid :: buffer[i] == before[i]
    {
      buffer[k] := buffer[valid - carry + k];
    }
    ghost var tail := before[valid - carry..valid];
    assert forall i | 0 <= i < carry :: tail[i] == buffer[i];
  }

  /** The buffer begins with the bytes before `offset`, as many as a match could still need. */
  ghost predicate Carried(rom: seq<u8>, buffer: seq<u8>, offset: nat, carry: nat, longest: nat) {
    && offset <= |rom| && carry <= |buffer| && longest > 0
    && carry == Min(longest - 1, offset)
    && buffer[..carry] == rom[offset - carry..offset]
  }

  /** The bytes from the carried ones to the end of the next chunk. */
  function Window(rom: seq<u8>, offset: nat, carry: nat, chunk: nat): seq<u8>
    requires carry <= offset && offset + chunk <= |rom|
  {
    rom[offset - carry..offset + chunk]
  }

  /** Read the next chunk behind the carried bytes. */
  method NextChunk(rom: seq<u8>, offset: nat, carry: nat, chunk: nat, longest: nat, buffer: array<u8>, fails: set<nat>, missing: set<nat>)
    returns (ok: bool)
    requires Carried(Shown(rom, missing), buffer[..], offset, carry, longest)
    requires offset + chunk <= |rom| && carry + chunk <= buffer.Length
    modifies buffer
    ensures ok <==> offset !in fails
    ensures ok ==> buffer[..carry + chunk] == Window(Shown(rom, missing), offset, carry, chunk)
  {
    ok := ReadBytes(rom, offset, buffer, carry, chunk, fails, missing);
  }

  /** Carry over what a match might still need. */
  method KeepTail(ghost rom: seq<u8>, offset: nat, carry: nat, chunk: nat, longest: nat, buffer: array<u8>) returns (keep: nat)
    requires longest > 0 && carry == Min(longest - 1, offset) && offset + chunk <= |rom| && carry + chunk <= buffer.Length
    requires buffer[..carry + chunk] == Window(rom, offset, carry, chunk)
    modifies buffer
    ensures Carried(rom, buffer[..], offset + chunk, keep, longest)
  {
    keep := Min(longest - 1, carry + chunk);
    ghost var window := buffer[..carry + chunk];
    CarryTail(buffer, carry + chunk, keep);
    assert buffer[..keep] == window[carry + chunk - keep..];
    assert window[carry + chunk - keep..] == rom[offset + chunk - keep..offset + chunk];
  }

  /**
   contains, without a contiguous view of the ROM and for any chunk size: found exactly if what the provider
   shows has it, unless a read is refused, which can only lose a match.
   */
  method ContainsChunked(rom: seq<u8>, needle: seq<u8>, chunkSize: nat, fails: set<nat>, missing: set<nat>) returns (found: bool)
    requires chunkSize > 0 && 0 < |needle| <= |rom|
    ensures found ==> Occurs(Shown(rom, missing), needle)
    ensures fails == {} ==> (found <==> Occurs(Shown(rom, missing), needle))
  {
    hide OccursBy, Window, Shown;
    ghost var shown := Shown(rom, missing);
    var buffer := new u8[chunkSize + |needle| - 1];
    var carry: nat, offset: nat := 0, 0;
    NothingYet(shown, needle);
    while offset < |rom|
      invariant Carried(shown, buffer[..], offset, carry, |needle|)
      invariant !OccursBy(shown, needle, offset)
    {
      hide Carried;
      CarryIsMin(shown, buffer[..], offset, carry, |needle|);
      var chunk: nat := Min(chunkSize, |rom| - offset);
      var ok := NextChunk(rom, offset, carry, chunk, |needle|, buffer, fails, missing);
      if !ok {
        return false;
      }
      WindowExtends(shown, needle, offset, carry, chunk);
      var hit := Search(buffer, carry + chunk, needle);
      if hit {
        OccursByMore(shown, needle, offset + chunk, |shown|);
        return true;
      }
      carry := KeepTail(shown, offset, carry, chunk, |needle|, buffer);
      offset := offset + chunk;
    }
    AtTheEnd(shown, buffer[..], offset, carry, |needle|);
    found := false;
  }

  lemma CarryIsMin(rom: seq<u8>, buffer: seq<u8>, offset: nat, carry: nat, longest: nat)
    requires Carried(rom, buffer, offset, carry, longest)
    ensures longest > 0 && carry == Min(longest - 1, offset)
  {
  }

  lemma AtTheEnd(rom: seq<u8>, buffer: seq<u8>, offset: nat, carry: nat, longest: nat)
    requires Carried(rom, buffer, offset, carry, longest) && offset >= |rom|
    ensures offset == |rom|
  {
  }

  lemma NothingYet(rom: seq<u8>, needle: seq<u8>)
    requires |needle| > 0
    ensures !OccursBy(rom, needle, 0)
  {
  }

  lemma OccursByMore(rom: seq<u8>, needle: seq<u8>, a: nat, b: nat)
    requires a <= b && OccursBy(rom, needle, a)
    ensures OccursBy(rom, needle, b)
  {
  }

  /**
   contains: exact on a contiguous ROM; otherwise exact on what is shown, which for a needle without 0xFF means
   found exactly if it occurs where it can be read.
   */
  method Contains(rom: seq<u8>, needle: seq<u8>, contiguous: bool, chunkSize: nat, fails: set<nat>, missing: set<nat>) returns (found: bool)
    requires chunkSize > 0
    ensures contiguous ==> (found <==> Occurs(rom, needle))
    ensures |needle| > 0 && found && !contiguous ==> Occurs(Shown(rom, missing), needle)
    ensures 0xFF !in needle && found ==> Occurs(rom, needle)
    ensures 0xFF !in needle && !contiguous && fails == {} && |needle| > 0 ==> (found <==> OccursIntact(rom, needle, missing))
    ensures missing == {} ==> (found ==> Occurs(rom, needle)) && (fails == {} ==> (found <==> Occurs(rom, needle)))
  {
    hide Occurs, Shown, OccursIntact;
    IntactOccurs(rom, needle, missing);
    if 0xFF !in needle {
      ShownIffIntact(rom, needle, missing);
    }
    if |needle| == 0 {
      EmptyOccurs(rom);
      return true;
    }
    if |needle| > |rom| {
      TooLong(rom, needle);
      TooLong(Shown(rom, missing), needle);
      return false;
    }
    if contiguous {
      var all := new u8[|rom|](k requires 0 <= k < |rom| => rom[k]);
      assert all[..|rom|] == rom;
      found := Search(all, |rom|, needle);
      return;
    }
    found := ContainsChunked(rom, needle, chunkSize, fails, missing);
  }

  lemma EmptyOccurs(rom: seq<u8>)
    ensures Occurs(rom, [])
  {
    assert MatchesAt(rom, 0, []);
  }

  lemma TooLong(s: seq<u8>, needle: seq<u8>)
    requires |needle| > |s|
    ensures !Occurs(s, needle)
  {
  }

  // ----- The feature scan -----

  /** flags[i] tells whether needles[i] has been met. */
  ghost predicate FlagsExact(rom: seq<u8>, needles: seq<seq<u8>>, flags: seq<bool>, upto: nat) {
    |flags| == |needles| && forall i | 0 <= i < |needles| :: flags[i] <==> OccursBy(rom, needles[i], upto)
  }

  function LongestOf(needles: seq<seq<u8>>): nat {
    if needles == [] then 0 else Max(LongestOf(needles[..|needles| - 1]), |needles[|needles| - 1]|)
  }

  lemma {:induction false} NoneLonger(needles: seq<seq<u8>>, i: nat)
    requires i < |needles|
    ensures |needles[i]| <= LongestOf(needles)
  {
    if i < |needles| - 1 {
      NoneLonger(needles[..|needles| - 1], i);
    }
  }

  /** Look for the needles that have not been met. */
  method ScanWindow(ghost rom: seq<u8>, needles: seq<seq<u8>>, flags: seq<bool>, offset: nat, carry: nat, chunk: nat, buffer: array<u8>)
    returns (newFlags: seq<bool>)
    requires forall i | 0 <= i < |needles| :: 0 < |needles[i]|
    requires FlagsExact(rom, needles, flags, offset)
    requires LongestOf(needles) > 0 && carry == Min(LongestOf(needles) - 1, offset)
    requires offset + chunk <= |rom| && carry + chunk <= buffer.Length
    requires buffer[..carry + chunk] == Window(rom, offset, carry, chunk)
    ensures FlagsExact(rom, needles, newFlags, offset + chunk)
  {
    hide OccursBy, Window, Occurs;
    newFlags := flags;
    for i := 0 to |needles|
      invariant |newFlags| == |needles|
      invariant forall j | 0 <= j < |needles| :: newFlags[j] <==> OccursBy(rom, needles[j], if j < i then offset + chunk else offset)
    {
      NoneLonger(needles, i);
      WindowExtends(rom, needles[i], offset, carry, chunk);
      if !newFlags[i] {
        var hit := Search(buffer, carry + chunk, needles[i]);
        newFlags := newFlags[i := hit];
      }
    }
  }

  /** scan_rom_features, for any chunk size and any list of tags: each flag is exact on what is shown, and unless a read is refused. */
  method ScanFeatures(rom: seq<u8>, needles: seq<seq<u8>>, chunkSize: nat, fails: set<nat>, missing: set<nat>) returns (flags: seq<bool>)
    requires chunkSize > 0 && forall i | 0 <= i < |needles| :: 0 < |needles[i]|
    ensures |flags| == |needles|
    ensures forall i | 0 <= i < |needles| :: flags[i] ==> Occurs(Shown(rom, missing), needles[i])
    ensures fails == {} ==> forall i | 0 <= i < |needles| :: flags[i] <==> Occurs(Shown(rom, missing), needles[i])
  {
    hide OccursBy, Window, Shown;
    ghost var shown := Shown(rom, missing);
    var longest := LongestOf(needles);
    flags := seq(|needles|, _ => false);
    NoFlags(shown, needles);
    if longest == 0 {
      LongestZero(needles);
      return;
    }
    var buffer := new u8[chunkSize + longest - 1];
    var carry: nat, offset: nat := 0, 0;
    while offset < |rom|
      invariant Carried(shown, buffer[..], offset, carry, longest)
      invariant FlagsExact(shown, needles, flags, offset)
    {
      hide Carried;
      CarryIsMin(shown, buffer[..], offset, carry, longest);
      FlagsStay(shown, needles, flags, offset);
      var chunk: nat := Min(chunkSize, |rom| - offset);
      var ok := NextChunk(rom, offset, carry, chunk, longest, buffer, fails, missing);
      if !ok {
        return;
      }
      flags := ScanWindow(shown, needles, flags, offset, carry, chunk, buffer);
      FlagsStay(shown, needles, flags, offset + chunk);
      if forall i | 0 <= i < |flags| :: flags[i] {
        return;
      }
      carry := KeepTail(shown, offset, carry, chunk, longest, buffer);
      offset := offset + chunk;
    }
    AtTheEnd(shown, buffer[..], offset, carry, longest);
  }

  lemma NoFlags(rom: seq<u8>, needles: seq<seq<u8>>)
    requires forall i | 0 <= i < |needles| :: 0 < |needles[i]|
    ensures FlagsExact(rom, needles, seq(|needles|, _ => false), 0)
  {
    forall i | 0 <= i < |needles|
      ensures !OccursBy(rom, needles[i], 0)
    {
      NothingYet(rom, needles[i]);
    }
  }

  lemma LongestZero(needles: seq<seq<u8>>)
    requires LongestOf(needles) == 0 && forall i | 0 <= i < |needles| :: 0 < |needles[i]|
    ensures needles == []
  {
    if needles != [] {
      NoneLonger(needles, 0);
    }
  }

  /** A flag once set stays right. */
  lemma FlagsStay(rom: seq<u8>, needles: seq<seq<u8>>, flags: seq<bool>, offset: nat)
    requires FlagsExact(rom, needles, flags, offset) && offset <= |rom|
    ensures forall i | 0 <= i < |needles| :: flags[i] ==> Occurs(rom, needles[i])
  {
    forall i | 0 <= i < |needles| && flags[i]
      ensures Occurs(rom, needles[i])
    {
      OccursByMore(rom, needles[i], offset, |rom|);
    }
  }

  /** The tags that the cartridge looks for. */
  const TAGS: seq<string> := ["SRAM_V", "EEPROM_V", "FLASH1M_V", "FLASH512_V", "FLASH_V", "RTC_V", "SIIRTC", "IRTC_V"]

  predicate Ascii(text: string) { forall i | 0 <= i < |text| :: (text[i] as int) < 0x80 }

  function Code(c: char): u8
    requires (c as int) < 0x80
  {
    c as int
  }

  lemma TagsAreAscii(i: nat)
    requires i < |TAGS|
    ensures Ascii(TAGS[i]) && |TAGS[i]| > 0
  {
  }

  function TagBytes(text: string): seq<u8>
    requires Ascii(text)
  {
    seq(|text|, i requires 0 <= i < |text| && Ascii(text) => Code(text[i]))
  }

  lemma TagsAvoidFF(text: string)
    requires Ascii(text)
    ensures 0xFF !in TagBytes(text)
  {
  }

  /**
   The scan of a cartridge: every tag that occurs and can be read is seen, those that straddle two chunks included,
   and no tag is seen that is not there.
   */
  method ScanTags(rom: seq<u8>, chunkSize: nat, fails: set<nat>, missing: set<nat>) returns (flags: seq<bool>)
    requires chunkSize > 0
    ensures |flags| == |TAGS|
    ensures forall i | 0 <= i < |TAGS| ::
      && Ascii(TAGS[i]) && (flags[i] ==> Occurs(rom, TagBytes(TAGS[i])))
      && (fails == {} ==> (flags[i] <==> OccursIntact(rom, TagBytes(TAGS[i]), missing)))
  {
    hide Occurs, OccursIntact, Shown;
    forall i | 0 <= i < |TAGS|
      ensures Ascii(TAGS[i]) && |TagBytes(TAGS[i])| > 0
    {
      TagsAreAscii(i);
    }
    hide Ascii;
    var needles := seq(|TAGS|, i requires 0 <= i < |TAGS| && Ascii(TAGS[i]) => TagBytes(TAGS[i]));
    flags := ScanFeatures(rom, needles, chunkSize, fails, missing);
    forall i | 0 <= i < |TAGS|
      ensures flags[i] ==> Occurs(rom, TagBytes(TAGS[i]))
      ensures fails == {} ==> (flags[i] <==> OccursIntact(rom, TagBytes(TAGS[i]), missing))
    {
      assert needles[i] == TagBytes(TAGS[i]);
      TagsAvoidFF(TAGS[i]);
      ShownIffIntact(rom, needles[i], missing);
      IntactOccurs(rom, needles[i], missing);
    }
  }
}
