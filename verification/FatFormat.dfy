/** createFAT32 (gpt/fat.c) as it runs: in place, on the bytes
    of a disk buffer from the first byte of a partition on. */
module FatFormat {
  import opened Arith
  import opened Bytes
  import Memory
  import Endian
  import opened FatLayout
  import opened FatBoot
  import opened FatImage

  method WriteBootHead(disk: array<byte>, base: nat, cfg: Config, ghost g: Geometry)
    requires base + 512 <= disk.Length
    requires cfg.bytesPerSector == g.sector && cfg.clusterSize == g.spc && cfg.nSector == g.nSector
    requires g.media == if cfg.isFixed then 0xF8 else 0xF0
    modifies disk
    ensures OnlyIn(old(disk[..]), disk[..], base, base + 512)
    ensures forall i :: 0 <= i < 512 ==> disk[base + i] == if i < 36 then BootByte(g, i) else 0
  {
    LeZero(2);
    LeZero(4);
    Memory.Clear(disk, base, 512);
    Memory.Store(disk, base, [0xEB, 0x00, 0x90]);
    Memory.Store(disk, base + 3, Ascii("mkfs.fat"));
    Endian.Store(Endian.HOST, disk, base + 11, 2, cfg.bytesPerSector);
    Endian.Store(Endian.HOST, disk, base + 13, 1, cfg.clusterSize);
    Endian.Store(Endian.HOST, disk, base + 14, 2, 8);
    Endian.Store(Endian.HOST, disk, base + 16, 1, 2);
    Endian.Store(Endian.HOST, disk, base + 17, 2, 0);
    Endian.Store(Endian.HOST, disk, base + 19, 2, 0);
    Memory.Store(disk, base + 21, [if cfg.isFixed then 0xF8 else 0xF0]);
    Endian.Store(Endian.HOST, disk, base + 24, 2, 32);
    Endian.Store(Endian.HOST, disk, base + 26, 2, 8);
    Endian.Store(Endian.HOST, disk, base + 28, 4, 0);
    Endian.Store(Endian.HOST, disk, base + 32, 4, cfg.nSector);
  }

  method WriteBootTail(disk: array<byte>, base: nat, fatSectors: nat, ghost g: Geometry)
    requires base + 512 <= disk.Length && fatSectors == g.fatSectors
    requires forall i :: 0 <= i < 512 ==> disk[base + i] == if i < 36 then BootByte(g, i) else 0
    modifies disk
    ensures OnlyIn(old(disk[..]), disk[..], base, base + 512)
    ensures disk[..][base..base + 512] == BootSector(g)
  {
    LeZero(2);
    Endian.Store(Endian.HOST, disk, base + 36, 4, fatSectors);
    Endian.Store(Endian.HOST, disk, base + 40, 2, 0);
    Endian.Store(Endian.HOST, disk, base + 42, 2, 0);
    Endian.Store(Endian.HOST, disk, base + 44, 4, 2);
    Endian.Store(Endian.HOST, disk, base + 48, 2, 1);
    Endian.Store(Endian.HOST, disk, base + 50, 2, 6);
    Memory.Store(disk, base + 64, [0x80]);
    Memory.Store(disk, base + 66, [0x29]);
    Endian.Store(Endian.HOST, disk, base + 67, 4, 0xe5792f15);
    Memory.Store(disk, base + 71, Ascii("NO NAME    "));
    Memory.Store(disk, base + 82, Ascii("FAT32   "));
    Memory.Store(disk, base + 510, [0x55]);
    Memory.Store(disk, base + 511, [0xAA]);
  }

  // ----- formatting -----

  function Pow2(k: nat): (p: nat)
    ensures p >= 1
  {
    if k == 0 then 1 else 2 * Pow2(k - 1)
  }

  /** `x` is `lo` doubled some number of times, and below `hi`. */
  ghost predicate Doubling(lo: nat, hi: nat, x: nat) {
    x < hi && exists k: nat :: x == lo * Pow2(k)
  }

  /** The loops that validate a power of two in [lo, hi). */
  method IsDoubling(lo: nat, hi: nat, x: nat) returns (ok: bool)
    requires lo > 0
    ensures ok <==> Doubling(lo, hi, x)
  {
    var i := lo;
    ghost var k: nat := 0;
    while i < hi
      invariant i == lo * Pow2(k) && forall j: nat :: j < k ==> x != lo * Pow2(j)
      decreases hi - i
    {
      if x == i {
        return true;
      }
      Doubled(lo, k);
      i := 2 * i;
      k := k + 1;
    }
    if Doubling(lo, hi, x) {
      var j: nat :| x == lo * Pow2(j);
      Pow2Mono(lo, k, j);
    }
    return false;
  }

  lemma Doubled(lo: nat, k: nat)
    ensures lo * Pow2(k + 1) == 2 * (lo * Pow2(k)) && lo * Pow2(k) >= lo
  {
    MulMono(1, Pow2(k), lo);
  }

  lemma {:induction false} Pow2Mono(lo: nat, j: nat, k: nat)
    requires j <= k
    ensures lo * Pow2(j) <= lo * Pow2(k)
    decreases k
  {
    if j < k {
      Pow2Mono(lo, j, k - 1);
      Doubled(lo, k - 1);
    }
  }

  /** What the two validations accept. */
  lemma DoublingsAre(x: nat)
    ensures Doubling(512, 8192, x) <==> ValidSectorSize(x)
    ensures Doubling(1, 256, x) <==> ValidClusterSize(x)
  {
    SmallPowers();
    if Doubling(512, 8192, x) {
      var k: nat :| x == 512 * Pow2(k);
      if k >= 4 {
        Pow2Mono(512, 4, k);
      }
    }
    if Doubling(1, 256, x) {
      var k: nat :| x == 1 * Pow2(k);
      if k >= 8 {
        Pow2Mono(1, 8, k);
      }
    }
  }

  lemma SmallPowers()
    ensures Pow2(0) == 1 && Pow2(1) == 2 && Pow2(2) == 4 && Pow2(3) == 8 && Pow2(4) == 16
    ensures Pow2(5) == 32 && Pow2(6) == 64 && Pow2(7) == 128 && Pow2(8) == 256
  {
    assert Pow2(3) == 8;
    assert Pow2(6) == 64;
  }

  ghost predicate InfoFields(s: seq<byte>, at: nat, freeCount: nat, nextFree: nat)
    requires at + 512 <= |s|
  {
    && Field(s, at, 4) == 0x41615252 && Field(s, at + 484, 4) == 0x61417272 && Field(s, at + 508, 4) == 0xAA55_0000
    && Field(s, at + 488, 4) == freeCount && Field(s, at + 492, 4) == nextFree
  }

  lemma InfoFieldsOk(v: seq<byte>, g: Geometry, files: seq<File>, freeCount: nat)
    requires Fits(v, g) && InfoFields(v, g.base + g.sector, freeCount, NextFree(g, files))
    requires freeCount + Used(g, files) == 2 * g.entries - 3
    ensures InfoOk(v, g, files)
  {
  }

  /** The five fields of FSInfo; the rest of the sector keeps its old bytes. */
  method WriteInfo(disk: array<byte>, at: nat, freeCount: nat)
    requires at + 512 <= disk.Length && freeCount < U32
    modifies disk
    ensures OnlyIn(old(disk[..]), disk[..], at, at + 512)
    ensures InfoFields(disk[..], at, freeCount, 3)
  {
    Endian.Store4(Endian.HOST, disk, at, 0x41615252);
    ghost var d := disk[..];
    Endian.Store4(Endian.HOST, disk, at + 484, 0x61417272);
    ghost var e := disk[..];
    FieldFrame(d, e, at + 484, at + 488, at, 4);
    Endian.Store4(Endian.HOST, disk, at + 488, freeCount);
    d := disk[..];
    FieldFrame(e, d, at + 488, at + 492, at, 4);
    FieldFrame(e, d, at + 488, at + 492, at + 484, 4);
    Endian.Store4(Endian.HOST, disk, at + 492, 3);
    e := disk[..];
    FieldFrame(d, e, at + 492, at + 496, at, 4);
    FieldFrame(d, e, at + 492, at + 496, at + 484, 4);
    FieldFrame(d, e, at + 492, at + 496, at + 488, 4);
    Endian.Store4(Endian.HOST, disk, at + 508, 0xAA55_0000);
    d := disk[..];
    FieldFrame(e, d, at + 508, at + 512, at, 4);
    FieldFrame(e, d, at + 508, at + 512, at + 484, 4);
    FieldFrame(e, d, at + 508, at + 512, at + 488, 4);
    FieldFrame(e, d, at + 508, at + 512, at + 492, 4);
  }

  /** A table as createFAT32 leaves it. */
  function FreshTable(entries: nat, media: byte): (s: seq<byte>)
    requires 3 <= entries
    ensures |s| == 4 * entries
    ensures s[..4] == Le(0xFFFF00 + media, 4) && s[4..8] == Le(0x0C00_0000, 4) && s[8..12] == Le(EOC, 4)
    ensures forall i :: 12 <= i < |s| ==> s[i] == 0
  {
    Le(0xFFFF00 + media, 4) + Le(0x0C00_0000, 4) + Le(EOC, 4) + Zeros(4 * entries - 12)
  }

  lemma FreshEntry(s: seq<byte>, entries: nat, media: byte, c: nat)
    requires 3 <= entries && s == FreshTable(entries, media) && c < entries
    ensures Field(s, 4 * c, 4)
         == if c == 0 then 0xFFFF00 + media else if c == 1 then 0x0C00_0000 else if c == 2 then EOC else 0
  {
    if c == 0 {
      assert s[0..4] == s[..4];
      Stored4(s, 0, 0xFFFF00 + media);
    } else if c == 1 {
      Stored4(s, 4, 0x0C00_0000);
    } else if c == 2 {
      Stored4(s, 8, EOC);
    } else {
      ZeroField(s, 4 * c, 4);
    }
  }

  lemma FreshTableOk(v: seq<byte>, g: Geometry, t: nat)
    requires Fits(v, g) && t < 2
    requires v[EntryOff(g, t, 0)..EntryOff(g, t, 0) + 4 * g.entries] == FreshTable(g.entries, g.media)
    ensures TableOk(v, g, t, [])
  {
    var at := EntryOff(g, t, 0);
    forall c | 0 <= c < g.entries
      ensures Ent(v, g, t, c) == Link(g, [], c)
    {
      FreshEntry(v[at..at + 4 * g.entries], g.entries, g.media, c);
      SliceOfSlice(v, at, at + 4 * g.entries, 4 * c, 4 * c + 4);
    }
  }

  /** The three entries a table starts with. */
  method StartTable(disk: array<byte>, at: nat, media: byte)
    requires at + 12 <= disk.Length
    modifies disk
    ensures OnlyIn(old(disk[..]), disk[..], at, at + 12)
    ensures Started(disk[..], at, media)
  {
    Endian.Store(Endian.HOST, disk, at, 4, 0xFFFF00 + media);
    Endian.Store(Endian.HOST, disk, at + 4, 4, 0x0C00_0000);
    Endian.Store(Endian.HOST, disk, at + 8, 4, EOC);
  }

  method WriteTables(disk: array<byte>, base: nat, first: nat, bytes: nat, media: byte)
    requires 512 <= bytes && bytes % 4 == 0 && base + first + 2 * bytes <= disk.Length
    modifies disk
    ensures OnlyIn(old(disk[..]), disk[..], base + first, base + first + 2 * bytes)
    ensures disk[..][base + first..base + first + bytes] == FreshTable(bytes / 4, media)
    ensures disk[..][base + first + bytes..base + first + 2 * bytes] == FreshTable(bytes / 4, media)
  {
    hide FreshTable, Started;
    ghost var d0 := disk[..];
    ClearRange(disk, base + first, 2 * bytes);
    ghost var d1 := disk[..];
    StartTable(disk, base + first, media);
    ghost var d2 := disk[..];
    StartTable(disk, base + first + bytes, media);
    TablesFresh(d0, d1, d2, disk[..], base + first, bytes, media);
  }

  method ClearRange(disk: array<byte>, at: nat, n: nat)
    requires at + n <= disk.Length
    modifies disk
    ensures OnlyIn(old(disk[..]), disk[..], at, at + n) && disk[..][at..at + n] == Zeros(n)
  {
    Memory.Clear(disk, at, n);
  }

  ghost predicate Started(d: seq<byte>, at: nat, media: byte)
    requires at + 12 <= |d|
  {
    && d[at..at + 4] == Le(0xFFFF00 + media, 4) && d[at + 4..at + 8] == Le(0x0C00_0000, 4)
    && d[at + 8..at + 12] == Le(EOC, 4)
  }

  lemma TablesFresh(d0: seq<byte>, d1: seq<byte>, d2: seq<byte>, d3: seq<byte>, at: nat, bytes: nat, media: byte)
    requires 512 <= bytes && bytes % 4 == 0 && at + 2 * bytes <= |d0|
    requires OnlyIn(d0, d1, at, at + 2 * bytes) && d1[at..at + 2 * bytes] == Zeros(2 * bytes)
    requires OnlyIn(d1, d2, at, at + 12) && Started(d2, at, media)
    requires OnlyIn(d2, d3, at + bytes, at + bytes + 12) && Started(d3, at + bytes, media)
    ensures OnlyIn(d0, d3, at, at + 2 * bytes)
    ensures d3[at..at + bytes] == FreshTable(bytes / 4, media)
    ensures d3[at + bytes..at + 2 * bytes] == FreshTable(bytes / 4, media)
  {
    hide FreshTable, Started;
    assert forall i :: at <= i < at + 2 * bytes ==> d1[i] == d1[at..at + 2 * bytes][i - at];
    IsFreshTable(d2, at, bytes / 4, media);
    OnlyInSlice(d2, d3, at + bytes, at + bytes + 12, at, at + bytes);
    IsFreshTable(d3, at + bytes, bytes / 4, media);
  }

  lemma IsFreshTable(d: seq<byte>, at: nat, entries: nat, media: byte)
    requires 3 <= entries && at + 4 * entries <= |d| && Started(d, at, media)
    requires forall i :: at + 12 <= i < at + 4 * entries ==> d[i] == 0
    ensures d[at..at + 4 * entries] == FreshTable(entries, media)
  {
    hide Le;
    var n := 4 * entries;
    assert d[at..at + n] == d[at..at + 4] + d[at + 4..at + 8] + d[at + 8..at + 12] + d[at + 12..at + n];
    assert d[at + 12..at + n] == Zeros(n - 12);
  }

  /** `a` and `b` may differ only inside two ranges. */
  ghost predicate OnlyInTwo(a: seq<byte>, b: seq<byte>, lo: nat, hi: nat, lo': nat, hi': nat) {
    && |a| == |b|
    && forall i :: 0 <= i < |a| && !(lo <= i < hi) && !(lo' <= i < hi') ==> a[i] == b[i]
  }

  /** The boot sector and its copy at sector 6. */
  method WriteBoot(disk: array<byte>, base: nat, cfg: Config, fatSectors: nat, ghost g: Geometry)
    requires base + 8 * g.sector <= disk.Length && 512 <= g.sector
    requires cfg.bytesPerSector == g.sector && cfg.clusterSize == g.spc && cfg.nSector == g.nSector
    requires fatSectors == g.fatSectors && g.media == if cfg.isFixed then 0xF8 else 0xF0
    modifies disk
    ensures OnlyInTwo(old(disk[..]), disk[..], base, base + 512, base + 6 * g.sector, base + 6 * g.sector + 512)
    ensures disk[..][base..base + 512] == BootSector(g)
    ensures disk[..][base + 6 * g.sector..base + 6 * g.sector + 512] == BootSector(g)
  {
    WriteBootHead(disk, base, cfg, g);
    WriteBootTail(disk, base, fatSectors, g);
    Memory.Copy(disk, base + cfg.bytesPerSector * 6, base, 512);
  }

  /** FSInfo and its copy at sector 7. */
  method InitInfo(disk: array<byte>, base: nat, sector: nat, freeCount: nat)
    requires 512 <= sector && base + 8 * sector <= disk.Length && freeCount < U32
    modifies disk
    ensures OnlyInTwo(old(disk[..]), disk[..], base + sector, base + sector + 512,
                      base + 7 * sector, base + 7 * sector + 512)
    ensures disk[..][base + 7 * sector..base + 7 * sector + 512] == disk[..][base + sector..base + sector + 512]
    ensures InfoFields(disk[..], base + sector, freeCount, 3)
  {
    WriteInfo(disk, base + sector, freeCount);
    ghost var d := disk[..];
    Memory.Copy(disk, base + sector * 7, base + sector, 512);
    assert d[base + sector..base + sector + 512] == disk[..][base + sector..base + sector + 512];
    InfoFieldsKept(d, disk[..], base + sector, freeCount, 3);
  }

  lemma InfoFieldsKept(d: seq<byte>, e: seq<byte>, at: nat, freeCount: nat, nextFree: nat)
    requires at + 512 <= |d| && at + 512 <= |e| && d[at..at + 512] == e[at..at + 512]
    requires InfoFields(d, at, freeCount, nextFree)
    ensures InfoFields(e, at, freeCount, nextFree)
  {
    FieldKept(d, e, at, 0, 4);
    FieldKept(d, e, at, 484, 4);
    FieldKept(d, e, at, 488, 4);
    FieldKept(d, e, at, 492, 4);
    FieldKept(d, e, at, 508, 4);
  }

  lemma FieldKept(d: seq<byte>, e: seq<byte>, at: nat, off: nat, w: nat)
    requires off + w <= 512 && at + 512 <= |d| && at + 512 <= |e| && d[at..at + 512] == e[at..at + 512]
    ensures Field(d, at + off, w) == Field(e, at + off, w)
  {
    SliceOfSlice(d, at, at + 512, off, off + w);
    SliceOfSlice(e, at, at + 512, off, off + w);
  }

  /** The reserved sectors from `o` on: boot sector, FSInfo and their copies. */
  ghost predicate Reserved(v: seq<byte>, o: nat, s: nat, boot: seq<byte>, freeCount: nat)
    requires 512 <= s && o + 8 * s <= |v|
  {
    && v[o..o + 512] == boot && v[o + 6 * s..o + 6 * s + 512] == boot
    && v[o + 7 * s..o + 7 * s + 512] == v[o + s..o + s + 512]
    && InfoFields(v, o + s, freeCount, 3)
  }

  lemma ReservedAssembled(d: seq<byte>, e: seq<byte>, o: nat, s: nat, boot: seq<byte>, freeCount: nat)
    requires 512 <= s && o + 8 * s <= |d|
    requires OnlyInTwo(d, e, o + s, o + s + 512, o + 7 * s, o + 7 * s + 512)
    requires d[o..o + 512] == boot == d[o + 6 * s..o + 6 * s + 512]
    requires e[o + 7 * s..o + 7 * s + 512] == e[o + s..o + s + 512]
    requires InfoFields(e, o + s, freeCount, 3)
    ensures Reserved(e, o, s, boot, freeCount)
  {
    assert d[o..o + 512] == e[o..o + 512];
    assert d[o + 6 * s..o + 6 * s + 512] == e[o + 6 * s..o + 6 * s + 512];
  }

  lemma ReservedFrame(v: seq<byte>, w: seq<byte>, o: nat, s: nat, boot: seq<byte>, freeCount: nat, hi: nat)
    requires 512 <= s && o + 8 * s <= |v| && OnlyIn(v, w, o + 8 * s, hi) && Reserved(v, o, s, boot, freeCount)
    ensures Reserved(w, o, s, boot, freeCount)
  {
    OnlyInSlice(v, w, o + 8 * s, hi, o, o + 512);
    OnlyInSlice(v, w, o + 8 * s, hi, o + 6 * s, o + 6 * s + 512);
    OnlyInSlice(v, w, o + 8 * s, hi, o + s, o + s + 512);
    OnlyInSlice(v, w, o + 8 * s, hi, o + 7 * s, o + 7 * s + 512);
    InfoFieldsKept(v, w, o + s, freeCount, 3);
  }

  method WriteReserved(disk: array<byte>, cfg: Config, base: nat, fat: nat, freeCount: nat, ghost g: Geometry)
    requires 512 <= g.sector && base + 8 * g.sector <= disk.Length && freeCount < U32
    requires cfg.bytesPerSector == g.sector && cfg.clusterSize == g.spc && cfg.nSector == g.nSector
    requires fat == g.fatSectors && g.media == if cfg.isFixed then 0xF8 else 0xF0
    modifies disk
    ensures OnlyIn(old(disk[..]), disk[..], base, base + 8 * g.sector)
    ensures Reserved(disk[..], base, g.sector, BootSector(g), freeCount)
  {
    hide BootSector, InfoFields;
    WriteBoot(disk, base, cfg, fat, g);
    ghost var d := disk[..];
    InitInfo(disk, base, cfg.bytesPerSector, freeCount);
    ReservedAssembled(d, disk[..], base, g.sector, BootSector(g), freeCount);
  }

  lemma FreshRoot(v: seq<byte>, g: Geometry)
    requires Fits(v, g)
    requires forall i :: g.base + g.dataOff <= i < g.base + g.dataOff + g.clusterBytes ==> v[i] == 0
    ensures Vacant(v, g, 0)
  {
    forall i | 0 <= i < Slots(g)
      ensures Slot(v, g, i) == Zeros(32)
    {
    }
  }

  /** Nothing is left of the volume's old contents that a reader could see. */
  lemma FreshIsEmpty(v: seq<byte>, g: Geometry)
    requires Fits(v, g) && Sectored(g) && Reserved(v, g.base, g.sector, BootSector(g), 2 * g.entries - 3)
    requires TableOk(v, g, 0, []) && TableOk(v, g, 1, []) && Vacant(v, g, 0)
    ensures RepInv(v, g, [])
  {
    InfoFieldsOk(v, g, [], 2 * g.entries - 3);
  }

  method InitTables(disk: array<byte>, base: nat, first: nat, bytes: nat, media: byte, ghost g: Geometry)
    requires Fits(disk[..], g) && base == g.base
    requires first == 8 * g.sector && bytes == 4 * g.entries && media == g.media
    modifies disk
    ensures OnlyIn(old(disk[..]), disk[..], g.base + 8 * g.sector, g.base + g.dataOff)
    ensures TableOk(disk[..], g, 0, []) && TableOk(disk[..], g, 1, [])
  {
    WriteTables(disk, base, first, bytes, media);
    FreshTableOk(disk[..], g, 0);
    FreshTableOk(disk[..], g, 1);
  }

  method InitRoot(disk: array<byte>, base: nat, dataOff: nat, clusterBytes: nat, ghost g: Geometry)
    requires Fits(disk[..], g) && base == g.base && dataOff == g.dataOff && clusterBytes == g.clusterBytes
    modifies disk
    ensures OnlyIn(old(disk[..]), disk[..], g.base + g.dataOff, g.base + g.dataOff + g.clusterBytes)
    ensures Vacant(disk[..], g, 0)
  {
    Memory.Clear(disk, base + dataOff, clusterBytes);
    FreshRoot(disk[..], g);
  }

  lemma RootCleared(d2: seq<byte>, d3: seq<byte>, d4: seq<byte>, g: Geometry, freeCount: nat)
    requires Fits(d2, g) && Reserved(d2, g.base, g.sector, BootSector(g), freeCount)
    requires OnlyIn(d2, d3, g.base + 8 * g.sector, g.base + g.dataOff)
    requires TableOk(d3, g, 0, []) && TableOk(d3, g, 1, [])
    requires OnlyIn(d3, d4, g.base + g.dataOff, g.base + g.dataOff + g.clusterBytes)
    ensures Reserved(d4, g.base, g.sector, BootSector(g), freeCount)
    ensures TableOk(d4, g, 0, []) && TableOk(d4, g, 1, [])
  {
    var o, e := g.base + g.dataOff, g.base + g.dataOff + g.clusterBytes;
    ReservedFrame(d2, d4, g.base, g.sector, BootSector(g), freeCount, e);
    TableFrame(d3, d4, g, 0, [], o, e);
    TableFrame(d3, d4, g, 1, [], o, e);
  }

  method WriteRegions(disk: array<byte>, cfg: Config, base: nat, fat: nat, freeCount: nat, fatBytes: nat,
                      dataOff: nat, clusterBytes: nat, media: byte, ghost g: Geometry)
    requires Fits(disk[..], g) && base == g.base
    requires cfg.bytesPerSector == g.sector && cfg.clusterSize == g.spc && cfg.nSector == g.nSector
    requires fat == g.fatSectors && media == g.media == if cfg.isFixed then 0xF8 else 0xF0
    requires freeCount == 2 * g.entries - 3 && fatBytes == 4 * g.entries && dataOff == g.dataOff
    requires clusterBytes == g.clusterBytes && 2 * g.entries < U32
    modifies disk
    ensures OnlyIn(old(disk[..]), disk[..], g.base, g.base + g.size)
    ensures Reserved(disk[..], g.base, g.sector, BootSector(g), 2 * g.entries - 3)
    ensures TableOk(disk[..], g, 0, []) && TableOk(disk[..], g, 1, []) && Vacant(disk[..], g, 0)
  {
    WriteReserved(disk, cfg, base, fat, freeCount, g);
    ghost var d2 := disk[..];
    InitTables(disk, base, cfg.bytesPerSector * 8, fatBytes, media, g);
    ghost var d3 := disk[..];
    InitRoot(disk, base, dataOff, clusterBytes, g);
    RootCleared(d2, d3, disk[..], g, freeCount);
  }

  /** The numbers createFAT32 computes are those of the layout. */
  lemma FormatNumbers(cfg: Config, base: nat, g: Geometry)
    requires Formats(cfg) && g == Layout(cfg, base)
    ensures Sound(g) && g.base == base && g.sector == cfg.bytesPerSector && g.spc == cfg.clusterSize
    ensures g.nSector == cfg.nSector && g.media == if cfg.isFixed then 0xF8 else 0xF0
    ensures var s := cfg.bytesPerSector;
      var fat := (cfg.nSector / cfg.clusterSize + s / 4 - 1) / (s / 4);
      && fat == g.fatSectors && fat * 2 * (s / 4) == 2 * g.entries && s * fat == 4 * g.entries
      && s * (8 + fat * 2) == g.dataOff && s * cfg.clusterSize == g.clusterBytes
    ensures 3 <= 2 * g.entries < U32 && 0 < g.sector && g.size == cfg.nSector * cfg.bytesPerSector
  {
    LayoutIsSound(cfg, base);
    var s := cfg.bytesPerSector;
    CDivIsMacro(cfg.nSector / cfg.clusterSize, s / 4);
    TableNumbers(g, s, g.fatSectors);
  }

  lemma TableNumbers(g: Geometry, s: nat, fat: nat)
    requires Sound(g) && s == g.sector && fat == g.fatSectors
    ensures fat * 2 * (s / 4) == 2 * g.entries && s * fat == 4 * g.entries && s * (8 + fat * 2) == g.dataOff
    ensures s * g.spc == g.clusterBytes && 2 * g.entries < U32
  {
    assert s * fat == 4 * g.entries && (8 + fat * 2) * s == g.dataOff;
    QuarterTimes(fat, s / 4, s);
  }

  lemma QuarterTimes(f: nat, q: nat, s: nat)
    requires s == 4 * q
    ensures f * 2 * q * 2 == s * f
  {
  }

  datatype FormatResult = Formatted | Rejected | AssertFailed

  /**
   * createFAT32 on the volume that starts at byte `base` of the disk. It
   * rejects or dies without touching the disk, or leaves an empty file system.
   */
  method CreateFat32(disk: array<byte>, base: nat, cfg: Config) returns (r: FormatResult)
    requires Addressable(cfg) && base + cfg.nSector * cfg.bytesPerSector <= disk.Length
    modifies disk
    ensures r.Rejected? <==> !Accepted(cfg)
    ensures r.AssertFailed? <==> Accepted(cfg) && !EnoughClusters(cfg)
    ensures !r.Formatted? ==> disk[..] == old(disk[..])
    ensures r.Formatted? ==> Sound(Layout(cfg, base)) && RepInv(disk[..], Layout(cfg, base), [])
    ensures OnlyIn(old(disk[..]), disk[..], base, base + cfg.nSector * cfg.bytesPerSector)
  {
    DoublingsAre(cfg.bytesPerSector);
    DoublingsAre(cfg.clusterSize);
    if cfg.nSector < 16 {
      return Rejected;
    }
    var ok := IsDoubling(512, 8192, cfg.bytesPerSector);
    if !ok {
      return Rejected;
    }
    ok := IsDoubling(1, 256, cfg.clusterSize);
    if !ok {
      return Rejected;
    }
    if cfg.nSector / cfg.clusterSize <= 2 {
      return AssertFailed;
    }
    Format(disk, base, cfg, Layout(cfg, base));
    return Formatted;
  }

  method Format(disk: array<byte>, base: nat, cfg: Config, ghost g: Geometry)
    requires Formats(cfg) && g == Layout(cfg, base) && base + g.size <= disk.Length
    modifies disk
    ensures OnlyIn(old(disk[..]), disk[..], base, base + g.size)
    ensures Sound(g) && RepInv(disk[..], g, [])
  {
    hide RepInv, TableOk, Vacant, Reserved, BootSector, FatLayout.Placed, FatLayout.Sectored;
    var s := cfg.bytesPerSector;
    FormatNumbers(cfg, base, g);
    var fat := (cfg.nSector / cfg.clusterSize + s / 4 - 1) / (s / 4);
    var media: byte := if cfg.isFixed then 0xF8 else 0xF0;
    var free := fat * 2 * (s / 4) - 3;
    WriteRegions(disk, cfg, base, fat, free, s * fat, s * (8 + fat * 2), s * cfg.clusterSize, media, g);
    FreshIsEmpty(disk[..], g);
  }
}
