/**
 The RAM side of the system bus (the EWRAM, IWRAM and VRAM arms of src/core/bus.cpp), for the half-word and
 word accesses that DMA makes.
 */
module RamBus {
  import opened Basics
  import RomBytes

  datatype Width = Half | Word
  datatype Region = Ewram | Iwram | Vram
  datatype Ram = Ram(ewram: seq<u8>, iwram: seq<u8>, vram: seq<u8>)

  function Size(w: Width): nat { if w == Half then 2 else 4 }

  function Capacity(r: Region): nat {
    match r case Ewram => 0x4_0000 case Iwram => 0x8000 case Vram => 0x1_8000
  }

  function Of(m: Ram, r: Region): seq<u8> {
    match r case Ewram => m.ewram case Iwram => m.iwram case Vram => m.vram
  }

  function With(m: Ram, r: Region, bytes: seq<u8>): Ram {
    match r case Ewram => m.(ewram := bytes) case Iwram => m.(iwram := bytes) case Vram => m.(vram := bytes)
  }

  ghost predicate WellSized(m: Ram) {
    |m.ewram| == Capacity(Ewram) && |m.iwram| == Capacity(Iwram) && |m.vram| == Capacity(Vram)
  }

  /** Bits 24-27 of the address choose the memory. */
  function RegionOf(address: u32): Option<Region> {
    match (address / 0x100_0000) % 16
    case 2 => Some(Ewram)
    case 3 => Some(Iwram)
    case 6 => Some(Vram)
    case _ => None
  }

  /** The mirrored offset; the last 32 KiB of VRAM's 128 KiB window repeat the ones before. */
  function OffsetIn(r: Region, address: u32): (offset: nat)
    ensures offset < Capacity(r)
  {
    match r
    case Ewram => address % 0x4_0000
    case Iwram => address % 0x8000
    case Vram => var o := address % 0x2_0000; if o >= 0x1_8000 then 0x1_0000 + o % 0x8000 else o
  }

  function AlignDown(offset: nat, w: Width): (aligned: nat)
    ensures aligned <= offset
  {
    if w == Half then offset / 2 * 2 else offset / 4 * 4
  }

  lemma AlignedFits(offset: nat, w: Width, words: nat)
    requires offset < 4 * words
    ensures AlignDown(offset, w) + Size(w) <= 4 * words
  {
    if w == Half {
      var q := offset / 2;
      assert 2 * q <= offset < 2 * (2 * words);
      assert q < 2 * words;
    } else {
      var q := offset / 4;
      assert 4 * q <= offset < 4 * words;
      assert q < words;
    }
  }

  /** Where an access of this width really goes. */
  function Place(r: Region, address: u32, w: Width): (place: nat)
    ensures place + Size(w) <= Capacity(r)
  {
    hide OffsetIn, AlignDown;
    AlignedFits(OffsetIn(r, address), w, if r == Ewram then 0x1_0000 else if r == Iwram then 0x2000 else 0x6000);
    AlignDown(OffsetIn(r, address), w)
  }

  /** An index at most one turn beyond an array of length n, brought back into it. */
  function Wrapped(k: nat, n: nat): (r: nat)
    requires 0 < n && k < 2 * n
    ensures r < n
  {
    if k < n then k else k - n
  }

  function Byte0(value: u32): u8 { value % 0x100 }
  function Byte1(value: u32): u8 { value / 0x100 % 0x100 }
  function Byte2(value: u32): u8 { value / 0x1_0000 % 0x100 }
  function Byte3(value: u32): u8 { value / 0x100_0000 % 0x100 }

  lemma JoinedBytes(b0: u8, b1: u8, b2: u8, b3: u8)
    ensures Byte0(RomBytes.Word(b0, b1, b2, b3)) == b0 && Byte1(RomBytes.Word(b0, b1, b2, b3)) == b1
    ensures Byte2(RomBytes.Word(b0, b1, b2, b3)) == b2 && Byte3(RomBytes.Word(b0, b1, b2, b3)) == b3
  {
    var value := RomBytes.Word(b0, b1, b2, b3);
    assert value / 0x100 == b1 + 0x100 * b2 + 0x1_0000 * b3;
    assert value / 0x1_0000 == b2 + 0x100 * b3;
    assert value / 0x100_0000 == b3;
  }

  lemma JoinedHalfBytes(b0: u8, b1: u8)
    ensures Byte0(RomBytes.Half(b0, b1)) == b0 && Byte1(RomBytes.Half(b0, b1)) == b1
  {
  }

  lemma BytesJoined(value: u32)
    ensures RomBytes.Word(Byte0(value), Byte1(value), Byte2(value), Byte3(value)) == value
  {
    var q1, q2, q3 := value / 0x100, value / 0x1_0000, value / 0x100_0000;
    assert q2 == q1 / 0x100 && q3 == q2 / 0x100;
  }

  lemma BytesJoinedHalf(value: u32)
    ensures RomBytes.Half(Byte0(value), Byte1(value)) == value % 0x1_0000
  {
    var q1, q2 := value / 0x100, value / 0x1_0000;
    assert q2 == q1 / 0x100;
  }

  /** Little-endian load; past the end it wraps to the start. */
  function Load(bytes: seq<u8>, at: nat, w: Width): u32
    requires 4 <= |bytes| && at < |bytes|
  {
    var n := |bytes|;
    if w == Half then RomBytes.Half(bytes[at], bytes[Wrapped(at + 1, n)])
    else RomBytes.Word(bytes[at], bytes[Wrapped(at + 1, n)], bytes[Wrapped(at + 2, n)], bytes[Wrapped(at + 3, n)])
  }

  function Store(bytes: seq<u8>, at: nat, value: u32, w: Width): (r: seq<u8>)
    requires 4 <= |bytes| && at < |bytes|
    ensures |r| == |bytes|
  {
    var n := |bytes|;
    var half := bytes[at := Byte0(value)][Wrapped(at + 1, n) := Byte1(value)];
    if w == Half then half
    else half[Wrapped(at + 2, n) := Byte2(value)][Wrapped(at + 3, n) := Byte3(value)]
  }

  /** What is stored is loaded again: the low half-word, or the whole word. */
  lemma LoadOfStore(bytes: seq<u8>, at: nat, value: u32, w: Width)
    requires 4 <= |bytes| && at < |bytes|
    ensures Load(Store(bytes, at, value, w), at, w) == if w == Half then value % 0x1_0000 else value
  {
    hide Byte0, Byte1, Byte2, Byte3, RomBytes.Half, RomBytes.Word;
    BytesJoined(value);
    BytesJoinedHalf(value);
  }

  /** The last 16 KiB of VRAM take no byte writes. */
  predicate TakesBytes(r: Region, offset: nat) {
    r != Vram || offset < 0x1_4000
  }

  /** A byte write reaches its own byte, and in VRAM the other byte of its half-word as well. */
  predicate Reaches(r: Region, offset: nat, o: nat) {
    TakesBytes(r, offset) && (o == offset || (r == Vram && o / 2 == offset / 2))
  }

  /** The memory after a byte write. */
  function StoreByte(r: Region, bytes: seq<u8>, offset: nat, value: u32): (after: seq<u8>)
    ensures |after| == |bytes| && forall o: nat :: o < |bytes| ==> after[o] == if Reaches(r, offset, o) then Byte0(value) else bytes[o]
  {
    seq(|bytes|, o requires 0 <= o < |bytes| => if Reaches(r, offset, o) then Byte0(value) else bytes[o])
  }

  /** A byte written is read back exactly where bytes are taken, whatever was there. */
  lemma ByteReadsBackIff(r: Region, address: u32, value: u32)
    ensures (forall bytes: seq<u8> :: |bytes| == Capacity(r) ==>
              StoreByte(r, bytes, OffsetIn(r, address), value)[OffsetIn(r, address)] == Byte0(value))
       <==> TakesBytes(r, OffsetIn(r, address))
  {
    hide OffsetIn, Byte0;
    var o := OffsetIn(r, address);
    if !TakesBytes(r, o) {
      var other: u8 := if Byte0(value) == 0 then 1 else 0;
      var bytes := seq(Capacity(r), _ => other);
      assert StoreByte(r, bytes, o, value)[o] == other;
    }
  }

  /** A byte in both halves of a half-word. */
  function Doubled(b: u8): u16 { RomBytes.Half(b, b) }

  /** In VRAM a byte write is a half-word write of the byte twice. */
  lemma VramByteIsHalf(bytes: seq<u8>, offset: nat, value: u32)
    requires |bytes| == Capacity(Vram) && offset < Capacity(Vram) && TakesBytes(Vram, offset)
    ensures StoreByte(Vram, bytes, offset, value) == Store(bytes, AlignDown(offset, Half), Doubled(Byte0(value)), Half)
  {
    var at, b := offset / 2 * 2, Byte0(value);
    assert Byte0(Doubled(b)) == b && Byte1(Doubled(b)) == b by { JoinedHalfBytes(b, b); }
    hide Byte0, Byte1;
    var twice := Store(bytes, at, Doubled(b), Half);
    forall o: nat | o < |bytes|
      ensures StoreByte(Vram, bytes, offset, value)[o] == twice[o]
    {
      assert o / 2 == offset / 2 <==> o == at || o == at + 1;
    }
  }

  /** Bus cycles of one access; `contended` while the LCD is drawing. */
  function Cycles(r: Region, w: Width, contended: bool): nat {
    match r
    case Ewram => if w == Word then 6 else 3
    case Iwram => 1
    case Vram => VramCycles(w, contended)
  }

  function VramCycles(w: Width, contended: bool): nat {
    (if w == Word then 2 else 1) + (if contended then 1 else 0)
  }

  /** The four arrays and accesses as the bus makes them. */
  class Memory {
    const ewram: array<u8>
    const iwram: array<u8>
    const vram: array<u8>
    var contended: bool

    ghost predicate Valid()
      reads {}
    {
      && ewram.Length == Capacity(Ewram) && iwram.Length == Capacity(Iwram) && vram.Length == Capacity(Vram)
      && ewram != iwram && ewram != vram && iwram != vram
    }

    function Bytes(r: Region): (bytes: array<u8>)
      ensures Valid() ==> bytes.Length == Capacity(r)
    {
      match r case Ewram => ewram case Iwram => iwram case Vram => vram
    }

    function Contents(): (m: Ram)
      reads ewram, iwram, vram
      ensures Valid() ==> WellSized(m)
    {
      Ram(ewram[..], iwram[..], vram[..])
    }

    constructor ()
      ensures Valid() && fresh(ewram) && fresh(iwram) && fresh(vram) && !contended
    {
      ewram, iwram, vram := new u8[0x4_0000], new u8[0x8000], new u8[0x1_8000];
      contended := false;
    }

    /** read_array and read_raw_memory */
    static method ReadArray(bytes: array<u8>, address: nat, w: Width) returns (value: u32)
      requires 4 <= bytes.Length
      ensures value == Load(bytes[..], AlignDown(address % bytes.Length, w), w)
    {
      hide RomBytes.Half, RomBytes.Word;
      var n := bytes.Length;
      var at := AlignDown(address % n, w);
      if w == Half {
        if at + 2 <= n {
          return RomBytes.Half(bytes[at], bytes[at + 1]);
        }
        return RomBytes.Half(bytes[at], bytes[Wrapped(at + 1, n)]);
      }
      if at + 4 <= n {
        return RomBytes.Word(bytes[at], bytes[at + 1], bytes[at + 2], bytes[at + 3]);
      }
      return RomBytes.Word(bytes[at], bytes[Wrapped(at + 1, n)], bytes[Wrapped(at + 2, n)], bytes[Wrapped(at + 3, n)]);
    }

    /** write_array and write_raw_memory */
    static method WriteArray(bytes: array<u8>, address: nat, value: u32, w: Width)
      requires 4 <= bytes.Length
      modifies bytes
      ensures bytes[..] == Store(old(bytes[..]), AlignDown(address % bytes.Length, w), value, w)
    {
      hide Byte0, Byte1, Byte2, Byte3;
      var n := bytes.Length;
      var at := AlignDown(address % n, w);
      bytes[at] := Byte0(value);
      bytes[Wrapped(at + 1, n)] := Byte1(value);
      if w == Word {
        bytes[Wrapped(at + 2, n)] := Byte2(value);
        bytes[Wrapped(at + 3, n)] := Byte3(value);
      }
    }

    method Read(address: u32, w: Width) returns (value: u32, cycles: nat)
      requires Valid() && RegionOf(address).Some?
      ensures var r := RegionOf(address).value;
        value == Load(Of(Contents(), r), Place(r, address, w), w) && cycles == Cycles(r, w, contended)
    {
      hide Load;
      var r := RegionOf(address).value;
      value := ReadArray(Bytes(r), OffsetIn(r, address), w);
      cycles := Cycles(r, w, contended);
    }

    method Write(address: u32, value: u32, w: Width) returns (cycles: nat)
      requires Valid() && RegionOf(address).Some?
      modifies ewram, iwram, vram
      ensures var r := RegionOf(address).value;
        && cycles == Cycles(r, w, contended)
        && Contents() == With(old(Contents()), r, Store(Of(old(Contents()), r), Place(r, address, w), value, w))
    {
      hide Store;
      var r := RegionOf(address).value;
      WriteArray(Bytes(r), OffsetIn(r, address), value, w);
      cycles := Cycles(r, w, contended);
    }

    /** A byte read takes as long as a half-word read. */
    method ReadByte(address: u32) returns (value: u8, cycles: nat)
      requires Valid() && RegionOf(address).Some?
      ensures var r := RegionOf(address).value;
        value == Of(Contents(), r)[OffsetIn(r, address)] && cycles == Cycles(r, Half, contended)
    {
      var r := RegionOf(address).value;
      var offset := OffsetIn(r, address);
      hide OffsetIn;
      value := Bytes(r)[offset];
      cycles := Cycles(r, Half, contended);
    }

    /** A byte write; VRAM stores it twice in the half-word, or not at all in its object part. */
    method WriteByte(address: u32, value: u32) returns (cycles: nat)
      requires Valid() && RegionOf(address).Some?
      modifies ewram, iwram, vram
      ensures var r := RegionOf(address).value;
        && cycles == Cycles(r, Half, contended)
        && Contents() == With(old(Contents()), r, StoreByte(r, Of(old(Contents()), r), OffsetIn(r, address), value))
    {
      var r := RegionOf(address).value;
      var offset := OffsetIn(r, address);
      cycles := Cycles(r, Half, contended);
      hide OffsetIn, Byte0, Store, RegionOf;
      ghost var before := Bytes(r)[..];
      ghost var after := StoreByte(r, before, offset, value);
      if r == Vram {
        if offset >= 0x1_4000 {
          assert after == before;
          return;
        }
        VramByteIsHalf(before, offset, value);
        WriteArray(vram, AlignDown(offset, Half), Doubled(Byte0(value)), Half);
        AlignedAgain(offset);
      } else {
        Bytes(r)[offset] := Byte0(value);
      }
      assert Bytes(r)[..] == after;
    }
  }

  lemma AlignedAgain(offset: nat)
    requires offset < Capacity(Vram)
    ensures AlignDown(AlignDown(offset, Half) % Capacity(Vram), Half) == AlignDown(offset, Half)
  {
    var q := offset / 2;
    assert offset / 2 * 2 == 2 * q && (2 * q) / 2 == q;
  }
}
