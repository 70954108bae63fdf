/**
 Memory as the BIOS decompression calls read and write it, byte by byte over the bus: EWRAM, IWRAM and VRAM with
 their mirrors, and around them what does not change (ROM, BIOS).
 */
module HleMemory {
  import opened Basics
  import RamBus

  const SPACE: nat := WORD_RANGE

  /** `fixed` tells what an address outside the three memories reads as. */
  datatype Memory = Memory(ram: RamBus.Ram, fixed: seq<u8>)

  ghost predicate Sized(m: Memory) { RamBus.WellSized(m.ram) && |m.fixed| == SPACE }

  function Address(a: int): (r: u32) { a % SPACE }

  /** The byte of memory behind an address: mirrors share it. */
  datatype Cell = InRam(region: RamBus.Region, offset: nat) | Fixed(address: u32)

  function CellOf(a: int): Cell {
    match RamBus.RegionOf(Address(a))
    case Some(r) => InRam(r, RamBus.OffsetIn(r, Address(a)))
    case None => Fixed(Address(a))
  }

  predicate Same(a: int, b: int) { CellOf(a) == CellOf(b) }

  function Peek(m: Memory, a: int): u8
    requires Sized(m)
  {
    match CellOf(a)
    case InRam(r, offset) => RamBus.Of(m.ram, r)[offset]
    case Fixed(address) => m.fixed[address]
  }

  /** A byte write; what it does in VRAM is RamBus.StoreByte's, and elsewhere nothing. */
  function Poke(m: Memory, a: int, value: u8): (r: Memory)
    requires Sized(m)
    ensures Sized(r)
  {
    match CellOf(a)
    case InRam(r, offset) => m.(ram := RamBus.With(m.ram, r, RamBus.StoreByte(r, RamBus.Of(m.ram, r), offset, value)))
    case Fixed(_) => m
  }

  /** Work RAM takes any byte. */
  predicate Work(a: int) { CellOf(a).InRam? && CellOf(a).region != RamBus.Vram }

  lemma PeekOfPoke(m: Memory, a: int, value: u8, b: int)
    requires Sized(m) && Work(a)
    ensures Peek(Poke(m, a, value), b) == if Same(a, b) then value else Peek(m, b)
  {
    hide RamBus.OffsetIn, RamBus.RegionOf;
    assert RamBus.Byte0(value) == value;
  }

  /** The size field of a header: bits 8-31 of the word at src, aligned. */
  function HeaderSize(m: Memory, src: u32): nat
    requires Sized(m)
  {
    var a := src / 4 * 4;
    Peek(m, a + 1) + 0x100 * Peek(m, a + 2) + 0x1_0000 * Peek(m, a + 3)
  }

  /** `bytes` are read from a on. */
  ghost predicate Holds(m: Memory, a: int, bytes: seq<u8>) {
    Sized(m) && forall x | a <= x < a + |bytes| :: Peek(m, x) == bytes[x - a]
  }

  /** n bytes from a on are n different bytes of work RAM. */
  ghost predicate Fits(a: int, n: int) {
    && (forall x | a <= x < a + n :: Work(x))
    && forall x, y | a <= x < y < a + n :: !Same(x, y)
  }

  /** The m bytes from s on and the n bytes from d on have nothing in common. */
  ghost predicate Disjoint(s: int, m: int, d: int, n: int) {
    forall x, y | s <= x < s + m && d <= y < d + n :: !Same(x, y)
  }

  /** A range fits if it stays in the 16 MiB of its region and is no longer than the memory, mirrored or not. */
  lemma FitsInRegion(r: RamBus.Region, a: u32, n: nat)
    requires r != RamBus.Vram && RamBus.RegionOf(a) == Some(r) && n <= RamBus.Capacity(r)
    requires a % 0x100_0000 + n <= 0x100_0000 && a < 0x1000_0000
    ensures Fits(a, n)
  {
    hide CellOf;
    RegionBounds(r, a);
    forall x | a <= x < a + n
      ensures CellOf(x) == InRam(r, x % RamBus.Capacity(r))
    {
      CellInRegion(r, x);
    }
    forall x, y | a <= x < y < a + n
      ensures !Same(x, y)
    {
      RemaindersDiffer(r, x, y);
    }
  }

  lemma RegionBounds(r: RamBus.Region, a: u32)
    requires r != RamBus.Vram && RamBus.RegionOf(a) == Some(r) && a < 0x1000_0000
    ensures (if r == RamBus.Ewram then 0x200_0000 else 0x300_0000) + a % 0x100_0000 == a
  {
  }

  lemma RemaindersDiffer(r: RamBus.Region, x: nat, y: nat)
    requires r != RamBus.Vram && 0 < y - x < RamBus.Capacity(r)
    ensures x % RamBus.Capacity(r) != y % RamBus.Capacity(r)
  {
    if r == RamBus.Ewram {
      assert x == x / 0x4_0000 * 0x4_0000 + x % 0x4_0000 && y == y / 0x4_0000 * 0x4_0000 + y % 0x4_0000;
    } else {
      assert x == x / 0x8000 * 0x8000 + x % 0x8000 && y == y / 0x8000 * 0x8000 + y % 0x8000;
    }
  }

  lemma CellInRegion(r: RamBus.Region, x: int)
    requires r != RamBus.Vram && (if r == RamBus.Ewram then 0x200_0000 else 0x300_0000) <= x < (if r == RamBus.Ewram then 0x300_0000 else 0x400_0000)
    ensures CellOf(x) == InRam(r, x % RamBus.Capacity(r))
  {
    assert Address(x) == x && x / 0x100_0000 == if r == RamBus.Ewram then 2 else 3;
  }

  /** m with `bytes` written at a, one after another. */
  function Written(m: Memory, a: int, bytes: seq<u8>): (r: Memory)
    requires Sized(m)
    ensures Sized(r)
    decreases |bytes|
  {
    if bytes == [] then m
    else Poke(Written(m, a, bytes[..|bytes| - 1]), a + |bytes| - 1, bytes[|bytes| - 1])
  }

  lemma WrittenMore(m: Memory, a: int, bytes: seq<u8>, value: u8)
    requires Sized(m)
    ensures Written(m, a, bytes + [value]) == Poke(Written(m, a, bytes), a + |bytes|, value)
  {
    assert (bytes + [value])[..|bytes|] == bytes;
  }

  lemma FitsWithin(a: int, n: int, a1: int, n1: int)
    requires Fits(a, n) && a <= a1 && a1 + n1 <= a + n
    ensures Fits(a1, n1)
  {
  }

  /** What was written is there, whatever mirror it is read from, and nothing else has changed. */
  lemma {:induction false} WrittenHolds(m: Memory, a: int, bytes: seq<u8>, b: int)
    requires Sized(m) && Fits(a, |bytes|)
    ensures forall x | a <= x < a + |bytes| && Same(x, b) :: Peek(Written(m, a, bytes), b) == bytes[x - a]
    ensures (forall x | a <= x < a + |bytes| :: !Same(x, b)) ==> Peek(Written(m, a, bytes), b) == Peek(m, b)
    decreases |bytes|
  {
    hide Peek, Poke, Work, CellOf;
    if bytes != [] {
      var n := |bytes| - 1;
      FitsWithin(a, |bytes|, a, n);
      WrittenHolds(m, a, bytes[..n], b);
      PeekOfPoke(Written(m, a, bytes[..n]), a + n, bytes[n], b);
      forall x | a <= x < a + n && Same(x, b)
        ensures !Same(a + n, b)
      {
        assert !Same(x, a + n);
      }
    }
  }

  /** Writing elsewhere leaves held bytes alone. */
  lemma HeldThroughWrites(m: Memory, a: int, bytes: seq<u8>, s: int, held: seq<u8>)
    requires Fits(a, |bytes|) && Holds(m, s, held) && Disjoint(s, |held|, a, |bytes|)
    ensures Holds(Written(m, a, bytes), s, held)
  {
    hide Written, Peek, CellOf;
    forall x | s <= x < s + |held|
      ensures Peek(Written(m, a, bytes), x) == held[x - s]
    {
      WrittenHolds(m, a, bytes, x);
      forall y | a <= y < a + |bytes|
        ensures !Same(y, x)
      {
        assert !Same(x, y);
      }
    }
  }

  lemma HoldsTail(m: Memory, s: int, head: seq<u8>, tail: seq<u8>)
    requires Holds(m, s, head + tail)
    ensures Holds(m, s, head) && Holds(m, s + |head|, tail)
  {
    hide Peek;
    forall x | s + |head| <= x < s + |head| + |tail|
      ensures Peek(m, x) == tail[x - s - |head|]
    {
      assert (head + tail)[x - s] == tail[x - s - |head|];
    }
    forall x | s <= x < s + |head|
      ensures Peek(m, x) == head[x - s]
    {
      assert (head + tail)[x - s] == head[x - s];
    }
  }
}
