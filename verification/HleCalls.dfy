/** The decompression calls as loops over memory, proved against the functions of HleDecoders and HleLz77. */
module HleCalls {
  import opened Basics
  import RamBus
  import opened HleMemory
  import opened HleDecoders
  import opened HleLz77

  /** The flag byte for the next token. */
  function Shifted(flags: u8): u8 {
    var f: int := flags;
    f * 2 % 0x100
  }

  class AddressSpace {
    const ram: RamBus.Memory
    const fixed: seq<u8>

    ghost predicate Valid()
      reads {}
    {
      ram.Valid() && |fixed| == SPACE
    }

    constructor (rom: seq<u8>)
      requires |rom| == SPACE
      ensures Valid() && fixed == rom && fresh(ram.ewram) && fresh(ram.iwram) && fresh(ram.vram)
    {
      ram := new RamBus.Memory();
      fixed := rom;
    }

    ghost function Contents(): (m: Memory)
      reads ram.ewram, ram.iwram, ram.vram
      requires Valid()
      ensures Sized(m)
    {
      Memory(ram.Contents(), fixed)
    }

    method Read(a: int) returns (value: u8)
      requires Valid()
      ensures value == Peek(Contents(), a)
    {
      hide RamBus.RegionOf, RamBus.OffsetIn;
      var address := Address(a);
      if RamBus.RegionOf(address).Some? {
        var cycles;
        value, cycles := ram.ReadByte(address);
      } else {
        value := fixed[address];
      }
    }

    method Write(a: int, value: u8)
      requires Valid()
      modifies ram.ewram, ram.iwram, ram.vram
      ensures Contents() == Poke(old(Contents()), a, value)
    {
      hide RamBus.RegionOf, RamBus.OffsetIn, RamBus.StoreByte;
      var address := Address(a);
      if RamBus.RegionOf(address).Some? {
        var cycles := ram.WriteByte(address, value);
      }
    }

    /** The header word's upper 24 bits. */
    method ReadSize(src: u32) returns (size: nat)
      requires Valid()
      ensures size == HeaderSize(Contents(), src)
    {
      var a := src / 4 * 4;
      var b1: int := Read(a + 1);
      var b2: int := Read(a + 2);
      var b3: int := Read(a + 3);
      size := b1 + 0x100 * b2 + 0x1_0000 * b3;
    }

    /** hle_diff_8bit_unfilter */
    method DiffUnfilter8(src: u32, dst: u32)
      requires Valid()
      modifies ram.ewram, ram.iwram, ram.vram
      ensures Contents() == Unfilter8(old(Contents()), src, dst)
    {
      hide Peek, Poke, HeaderSize;
      ghost var m := Contents();
      var size := ReadSize(src);
      if size == 0 {
        return;
      }
      var accumulator: u8 := 0;
      for i := 0 to size
        invariant (Contents(), accumulator) == Unfiltered(m, src + 4, dst, i)
      {
        var value := Read(src + 4 + i);
        accumulator := (accumulator + value) % 0x100;
        Write(dst + i, accumulator);
      }
    }

    method Fill(d: int, value: u8, n: nat)
      requires Valid()
      modifies ram.ewram, ram.iwram, ram.vram
      ensures Contents() == Filled(old(Contents()), d, value, n)
    {
      hide Poke;
      for i := 0 to n
        invariant Contents() == Filled(old(Contents()), d, value, i)
      {
        Write(d + i, value);
      }
    }

    method CopyForward(a: int, d: int, n: nat)
      requires Valid()
      modifies ram.ewram, ram.iwram, ram.vram
      ensures Contents() == CopiedForward(old(Contents()), a, d, n)
    {
      hide Peek, Poke;
      for i := 0 to n
        invariant Contents() == CopiedForward(old(Contents()), a, d, i)
      {
        var value := Read(a + i);
        Write(d + i, value);
      }
    }

    /** hle_rl_uncomp */
    method RlUncompress(src: u32, dst: u32)
      requires Valid()
      modifies ram.ewram, ram.iwram, ram.vram
      ensures Contents() == RlUncompressed(old(Contents()), src, dst)
    {
      hide Peek, Filled, CopiedForward, HeaderSize;
      ghost var m := Contents();
      var size := ReadSize(src);
      if size == 0 {
        return;
      }
      var s, written := src + 4, 0;
      while written < size
        invariant 0 <= written <= size
        invariant RlLoop(Contents(), s, dst + written, size - written) == RlLoop(m, src + 4, dst, size)
        decreases size - written
      {
        var flag := Read(s);
        s := s + 1;
        if flag >= 0x80 {
          var value := Read(s);
          s := s + 1;
          var length := Min(flag - 0x80 + 3, size - written);
          Fill(dst + written, value, length);
          written := written + length;
        } else {
          var length := Min(flag + 1, size - written);
          CopyForward(s, dst + written, length);
          s := s + length;
          written := written + length;
        }
      }
    }

    /** hle_lz77_uncomp */
    method Lz77Uncompress(src: u32, dst: u32)
      requires Valid()
      modifies ram.ewram, ram.iwram, ram.vram
      ensures Contents() == LzUncompressed(old(Contents()), src, dst)
    {
      hide Peek, Poke, CopiedForward, HeaderSize;
      ghost var m := Contents();
      var size := ReadSize(src);
      if size == 0 {
        return;
      }
      var s, written := src + 4, 0;
      while written < size
        invariant 0 <= written <= size
        invariant LzLoop(Contents(), s, dst + written, size - written, 0, 0) == LzUncompressed(m, src, dst)
        decreases size - written
      {
        var flags := Read(s);
        s := s + 1;
        s, written := DecodeGroup(s, dst, written, size, flags);
      }
    }

    /** The tokens of one flag byte. */
    method DecodeGroup(start: int, dst: u32, done: nat, size: nat, flagByte: u8) returns (s: int, written: nat)
      requires Valid() && done < size
      modifies ram.ewram, ram.iwram, ram.vram
      ensures done < written <= size
      ensures LzLoop(Contents(), s, dst + written, size - written, 0, 0)
           == LzLoop(old(Contents()), start, dst + done, size - done, flagByte, 8)
    {
      hide Peek, Poke, CopiedForward;
      ghost var m := Contents();
      var flags: u8, bit := flagByte, 0;
      s, written := start, done;
      while bit < 8 && written < size
        invariant 0 <= bit <= 8 && done <= written <= size && (bit > 0 ==> done < written)
        invariant LzLoop(Contents(), s, dst + written, size - written, flags, 8 - bit)
               == LzLoop(m, start, dst + done, size - done, flagByte, 8)
        decreases 8 - bit
      {
        s, written := DecodeToken(s, dst, written, size, flags, 8 - bit);
        flags := Shifted(flags);
        bit := bit + 1;
      }
      FlagsUnused(Contents(), s, dst + written, size - written, flags, 8 - bit);
    }

    method DecodeToken(start: int, dst: u32, done: nat, size: nat, flags: u8, ghost bits: nat) returns (s: int, written: nat)
      requires Valid() && done < size && bits > 0
      modifies ram.ewram, ram.iwram, ram.vram
      ensures done < written <= size
      ensures LzLoop(Contents(), s, dst + written, size - written, Shifted(flags), bits - 1)
           == LzLoop(old(Contents()), start, dst + done, size - done, flags, bits)
    {
      hide Peek, Poke, CopiedForward;
      var lo := Read(start);
      if flags < 0x80 {
        Write(dst + done, lo);
        return start + 1, done + 1;
      }
      var hi: int := Read(start + 1);
      var disp, count := lo + hi / 0x10 * 0x100, Min(hi % 0x10 + 3, size - done);
      CopyForward(dst + done - disp - 1, dst + done, count);
      return start + 2, done + count;
    }
  }

  /** With no token of the flag byte left, or no byte wanted, the flags no longer matter. */
  lemma FlagsUnused(m: Memory, s: int, d: int, left: nat, flags: u8, bits: nat)
    requires Sized(m) && (left == 0 || bits == 0)
    ensures LzLoop(m, s, d, left, flags, bits) == LzLoop(m, s, d, left, 0, 0)
  {
  }
}
