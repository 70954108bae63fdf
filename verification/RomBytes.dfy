/** The ROM as readers see it: a flat sequence of bytes. */
module RomBytes {
  import opened Basics

  /** Number of pages of `pageBytes` bytes that cover `size` bytes. */
  function PageCount(size: nat, pageBytes: nat): nat
    requires pageBytes > 0
  {
    (size + pageBytes - 1) / pageBytes
  }

  /** The page an address lies in, its place in that page, and where a page starts. */
  function PageOf(address: nat, pageBytes: nat): nat
    requires pageBytes > 0
  {
    address / pageBytes
  }

  function OffsetIn(address: nat, pageBytes: nat): (o: nat)
    requires pageBytes > 0
    ensures o < pageBytes
  {
    address % pageBytes
  }

  function PageStart(p: nat, pageBytes: nat): nat {
    p * pageBytes
  }

  /** Byte `o` of page `p`, 0xFF beyond the end of the ROM. */
  function PageByte(rom: seq<u8>, pageBytes: nat, p: nat, o: nat): u8 {
    var at := PageStart(p, pageBytes) + o;
    if at < |rom| then rom[at] else 0xFF
  }

  /** Little-endian values of two and four consecutive bytes. */
  function Half(b0: u8, b1: u8): u16 { b0 + 0x100 * b1 }
  function Word(b0: u8, b1: u8, b2: u8, b3: u8): u32 { b0 + 0x100 * b1 + 0x1_0000 * b2 + 0x100_0000 * b3 }

  /** A byte address, split into page and offset. */
  lemma AddressSplits(address: nat, pageBytes: nat)
    requires pageBytes > 0
    ensures address == PageStart(PageOf(address, pageBytes), pageBytes) + OffsetIn(address, pageBytes)
  {
  }

  lemma NextPageStart(p: nat, pageBytes: nat)
    ensures PageStart(p + 1, pageBytes) == PageStart(p, pageBytes) + pageBytes
  {
  }

  /** A page that starts inside the ROM is one of its pages. */
  lemma PageInRange(p: nat, size: nat, pageBytes: nat)
    requires pageBytes > 0
    ensures PageStart(p, pageBytes) < size <==> p < PageCount(size, pageBytes)
  {
    var n := size + pageBytes - 1;
    AddressSplits(n, pageBytes);
    var q := n / pageBytes;
    if p < q {
      assert (p + 1) * pageBytes <= q * pageBytes;
      assert (p + 1) * pageBytes == p * pageBytes + pageBytes;
    } else {
      assert q * pageBytes <= p * pageBytes;
    }
  }

  /** The page in which a read that ends before `end` ends. */
  function LastPage(end: nat, pageBytes: nat): nat
    requires pageBytes > 0
  {
    PageOf(if end == 0 then 0 else end - 1, pageBytes)
  }

  lemma TimesMonotone(a: nat, b: nat, c: nat)
    requires a <= b
    ensures a * c <= b * c
  {
  }

  /** The bytes between two page starts are those of the page. */
  lemma InPage(address: nat, p: nat, pageBytes: nat)
    requires pageBytes > 0 && PageStart(p, pageBytes) <= address < PageStart(p + 1, pageBytes)
    ensures PageOf(address, pageBytes) == p && OffsetIn(address, pageBytes) == address - PageStart(p, pageBytes)
  {
    var q, r := address / pageBytes, address % pageBytes;
    assert address == q * pageBytes + r;
    if q < p {
      TimesMonotone(q + 1, p, pageBytes);
    } else if p < q {
      TimesMonotone(p + 1, q, pageBytes);
    }
  }

  lemma BeforePage(address: nat, p: nat, pageBytes: nat)
    requires pageBytes > 0 && address < PageStart(p, pageBytes)
    ensures PageOf(address, pageBytes) < p
  {
    var q, r := address / pageBytes, address % pageBytes;
    assert address == q * pageBytes + r;
    if p <= q {
      TimesMonotone(p, q, pageBytes);
    }
  }

  // ----- Copying page by page -----

  /** `data` is the ROM's bytes from `address`, with 0xFF for those of the missing pages. */
  ghost predicate Delivered(data: seq<u8>, rom: seq<u8>, address: nat, pageBytes: nat, missing: set<nat>)
    requires pageBytes > 0
  {
    && address + |data| <= |rom|
    && forall i: nat :: i < |data| ==> data[i] == if PageOf(address + i, pageBytes) in missing then 0xFF else rom[address + i]
  }

  /** `copied` of `total` bytes from `address` are those of the first k pages, or all. */
  ghost predicate PagesCopied(address: nat, pageBytes: nat, total: nat, copied: nat, k: nat)
    requires pageBytes > 0
  {
    && copied <= total
    && (if copied < total then
          && PageOf(address + copied, pageBytes) == PageOf(address, pageBytes) + k
          && (if k == 0 then copied == 0 else OffsetIn(address + copied, pageBytes) == 0)
        else total > 0 ==> PageOf(address, pageBytes) + k == LastPage(address + total, pageBytes) + 1)
  }

  /** What is left of the page that holds the next byte. */
  function ChunkAt(address: nat, pageBytes: nat, left: nat): (n: nat)
    requires pageBytes > 0
    ensures n <= left && (left > 0 ==> n > 0)
  {
    Min(left, pageBytes - OffsetIn(address, pageBytes))
  }

  lemma NothingCopied(address: nat, pageBytes: nat, total: nat)
    requires pageBytes > 0 && total > 0
    ensures PagesCopied(address, pageBytes, total, 0, 0)
  {
  }

  lemma ChunkIsOnePage(address: nat, pageBytes: nat, total: nat, copied: nat, k: nat)
    requires pageBytes > 0 && copied < total && PagesCopied(address, pageBytes, total, copied, k)
    ensures var p, chunk := PageOf(address, pageBytes) + k, ChunkAt(address + copied, pageBytes, total - copied);
      && PagesCopied(address, pageBytes, total, copied + chunk, k + 1)
      && (forall x: nat :: address <= x < address + copied ==> PageOf(x, pageBytes) < p)
      && (forall x: nat :: address + copied <= x < address + copied + chunk ==> PageOf(x, pageBytes) == p)
  {
    var p := PageOf(address, pageBytes) + k;
    var at, chunk := address + copied, ChunkAt(address + copied, pageBytes, total - copied);
    AddressSplits(at, pageBytes);
    AddressSplits(address, pageBytes);
    NextPageStart(p, pageBytes);
    NextPageStart(p + 1, pageBytes);
    hide PageOf, OffsetIn, PageStart;
    forall x: nat | at <= x < at + chunk
      ensures PageOf(x, pageBytes) == p
    {
      InPage(x, p, pageBytes);
    }
    forall x: nat | address <= x < at
      ensures PageOf(x, pageBytes) < p
    {
      BeforePage(x, p, pageBytes);
    }
    if copied + chunk < total {
      InPage(at + chunk, p + 1, pageBytes);
    }
  }

  /** The ROM with 0xFF for its missing bytes. */
  function Shown(rom: seq<u8>, missing: set<nat>): (shown: seq<u8>)
    ensures |shown| == |rom|
  {
    seq(|rom|, i requires 0 <= i < |rom| => if i in missing then 0xFF else rom[i])
  }

  /** The bytes of these pages. */
  function BytesOf(pages: set<nat>, size: nat, pageBytes: nat): set<nat>
    requires pageBytes > 0
  {
    set i | 0 <= i < size && PageOf(i, pageBytes) in pages
  }

  function ShownPages(rom: seq<u8>, pageBytes: nat, pages: set<nat>): (shown: seq<u8>)
    requires pageBytes > 0
    ensures |shown| == |rom|
  {
    Shown(rom, BytesOf(pages, |rom|, pageBytes))
  }

  lemma DeliveredIffShown(data: seq<u8>, rom: seq<u8>, address: nat, pageBytes: nat, pages: set<nat>)
    requires pageBytes > 0 && address + |data| <= |rom|
    ensures Delivered(data, rom, address, pageBytes, pages) <==> data == ShownPages(rom, pageBytes, pages)[address..address + |data|]
  {
    hide PageOf;
    var shown := ShownPages(rom, pageBytes, pages);
    var part := shown[address..address + |data|];
    forall i: nat | i < |data|
      ensures part[i] == if PageOf(address + i, pageBytes) in pages then 0xFF else rom[address + i]
    {
      assert part[i] == shown[address + i];
    }
  }

  lemma ByteIsShown(rom: seq<u8>, pageBytes: nat, address: nat, missing: set<nat>)
    requires pageBytes > 0 && address < |rom|
    ensures ShownPages(rom, pageBytes, missing)[address] == if PageOf(address, pageBytes) in missing then 0xFF else rom[address]
  {
  }

  lemma NothingMissing(rom: seq<u8>, pageBytes: nat)
    requires pageBytes > 0
    ensures ShownPages(rom, pageBytes, {}) == rom
  {
  }

  lemma NothingDelivered(data: seq<u8>, rom: seq<u8>, address: nat, pageBytes: nat)
    requires pageBytes > 0 && data == [] && address <= |rom|
    ensures Delivered(data, rom, address, pageBytes, {})
  {
  }

  /** The ROM's bytes from `address`, or as many bytes 0xFF. */
  ghost predicate IsChunk(data: seq<u8>, rom: seq<u8>, address: nat, failed: bool) {
    && address + |data| <= |rom|
    && forall i: nat :: i < |data| ==> data[i] == if failed then 0xFF else rom[address + i]
  }

  /** One more page's bytes, or 0xFF throughout because it is missing. */
  lemma DeliveredMore(data: seq<u8>, more: seq<u8>, rom: seq<u8>, address: nat, pageBytes: nat, missing: set<nat>, p: nat, failed: bool)
    requires pageBytes > 0 && Delivered(data, rom, address, pageBytes, missing) && IsChunk(more, rom, address + |data|, failed)
    requires forall x: nat :: address <= x < address + |data| ==> PageOf(x, pageBytes) < p
    requires forall x: nat :: address + |data| <= x < address + |data| + |more| ==> PageOf(x, pageBytes) == p
    requires forall m :: m in missing ==> m < p
    ensures Delivered(data + more, rom, address, pageBytes, if failed then missing + {p} else missing)
  {
    hide PageOf;
    var all := data + more;
    var now := if failed then missing + {p} else missing;
    forall i: nat | i < |all|
      ensures all[i] == if PageOf(address + i, pageBytes) in now then 0xFF else rom[address + i]
    {
      if i >= |data| {
        assert all[i] == more[i - |data|];
      }
    }
  }

  /** memcpy into a buffer. */
  method Store(out: array<u8>, start: nat, data: seq<u8>)
    requires start + |data| <= out.Length
    modifies out
    ensures out[..start] == old(out[..start])
    ensures out[start..start + |data|] == data
    ensures out[start + |data|..] == old(out[start + |data|..])
  {
    forall i | 0 <= i < |data| {
      out[start + i] := data[i];
    }
  }
}
