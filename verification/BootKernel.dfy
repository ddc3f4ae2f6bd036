/** The kernel from end to end: an ELF file copied into mkgpt's image as the
    second file, and memory after the boot loader has loaded it. */
module BootKernel {
  import opened Bytes
  import opened Boot
  import opened Elf
  import opened FatLayout
  import opened FatImage
  import opened BootRead
  import opened MkGpt
  import FatReader
  import FatRun

  // ----- an ELF file, as bytes -----

  predicate HasHeader(k: seq<byte>) {
    64 <= |k| < U32
  }

  /** Where program header `i` lies in the file. */
  function PhdrAt(k: seq<byte>, i: nat): nat
    requires HasHeader(k)
  {
    Field(k, 32, 8) % U32 + 56 * i
  }

  function Phdrs(k: seq<byte>): nat
    requires HasHeader(k)
  {
    Field(k, 56, 2)
  }

  /** Program headers lie inside the file and none straddles a sector. */
  predicate HasPhdrs(k: seq<byte>) {
    HasHeader(k) && forall i :: 0 <= i < Phdrs(k) ==> PhdrOk(k, i)
  }

  predicate PhdrOk(k: seq<byte>, i: nat)
    requires HasHeader(k)
  {
    PhdrAt(k, i) + 56 <= |k| && PhdrAt(k, i) % SECTSIZE + 56 <= SECTSIZE
  }

  function Phdr(k: seq<byte>, i: nat): Segment
    requires HasPhdrs(k) && i < Phdrs(k)
  {
    assert PhdrOk(k, i);
    SegmentAt(k, PhdrAt(k, i))
  }

  predicate Picked(k: seq<byte>, i: nat)
    requires HasPhdrs(k)
  {
    i < Phdrs(k) && Phdr(k, i).Selected()
  }

  /** The segment lies inside the file, and in memory apart from the loader. */
  predicate SegmentOk(k: seq<byte>, g: Segment, memSize: nat, data: nat) {
    && g.filesz <= g.memsz && g.paddr + g.memsz <= memSize && g.offset + g.filesz <= |k|
    && Apart(g.paddr, g.memsz, SECTOR_DATA_START, SECTSIZE) && Apart(g.paddr, g.memsz, data, SECTSIZE)
  }

  /** An ELF file the loader can load: its selected segments are in order and pairwise disjoint. */
  ghost predicate ElfOk(k: seq<byte>, memSize: nat, data: nat) {
    && HasPhdrs(k)
    && (forall i :: Picked(k, i) ==> SegmentOk(k, Phdr(k, i), memSize, data))
    && forall i, j :: Picked(k, i) && Picked(k, j) && i != j ==> SegmentsApart(Phdr(k, i), Phdr(k, j))
  }

  /** Memory holds segment `g` of the file: its bytes, then zeros. */
  ghost predicate SegmentLoaded(m: seq<byte>, k: seq<byte>, g: Segment) {
    && g.paddr + g.memsz <= |m| && g.filesz <= g.memsz && g.offset + g.filesz <= |k|
    && m[g.paddr..g.paddr + g.filesz] == k[g.offset..g.offset + g.filesz]
    && m[g.paddr + g.filesz..g.paddr + g.memsz] == Zeros(g.memsz - g.filesz)
  }

  /** Address `x` belongs neither to the loader nor to a selected segment. */
  ghost predicate Outside(k: seq<byte>, data: nat, x: nat)
    requires HasPhdrs(k)
  {
    && !Within(x, SECTOR_DATA_START, SECTSIZE) && !Within(x, data, SECTSIZE)
    && forall i :: Picked(k, i) ==> !Within(x, Phdr(k, i).paddr, Phdr(k, i).memsz)
  }

  /** Every selected segment is in place and nothing else has changed. */
  ghost predicate ElfLoaded(before: seq<byte>, after: seq<byte>, k: seq<byte>, data: nat)
    requires HasPhdrs(k)
  {
    && |before| == |after|
    && (forall i :: Picked(k, i) ==> SegmentLoaded(after, k, Phdr(k, i)))
    && forall x :: 0 <= x < |before| && Outside(k, data, x) ==> after[x] == before[x]
  }

  // ----- the file on the disk -----

  /** The file lies from sector `lba` on, its last sector whole on the disk. */
  ghost predicate FileAt(d: seq<byte>, lba: nat, k: seq<byte>) {
    && SECTSIZE * lba + |k| <= |d| && d[SECTSIZE * lba..SECTSIZE * lba + |k|] == k
    && OnDisk(d, lba, 0, |k|)
  }

  lemma FieldOnDisk(d: seq<byte>, lba: nat, k: seq<byte>, o: nat, w: nat)
    requires FileAt(d, lba, k) && o + w <= |k|
    ensures Field(d, SECTSIZE * lba + o, w) == Field(k, o, w)
  {
    SliceOfSlice(d, SECTSIZE * lba, SECTSIZE * lba + |k|, o, o + w);
  }

  /** Every sector that holds one of the file's bytes is on the disk. */
  lemma SectorHeld(d: seq<byte>, lba: nat, k: seq<byte>, x: nat)
    requires FileAt(d, lba, k) && x < |k|
    ensures SECTSIZE * (lba + x / SECTSIZE) + SECTSIZE <= |d|
  {
    assert x / SECTSIZE <= (|k| - 1) / SECTSIZE;
  }

  lemma HeaderFound(d: seq<byte>, lba: nat, k: seq<byte>)
    requires FileAt(d, lba, k) && HasHeader(k)
    ensures SECTSIZE * lba + SECTSIZE <= |d| && PhOff(d, lba) == Field(k, 32, 8) % U32 && PhNum(d, lba) == Phdrs(k)
  {
    SectorHeld(d, lba, k, 0);
    FieldOnDisk(d, lba, k, 32, 8);
    FieldOnDisk(d, lba, k, 56, 2);
  }

  lemma PhdrFound(d: seq<byte>, lba: nat, k: seq<byte>, i: nat)
    requires FileAt(d, lba, k) && HasPhdrs(k) && i < Phdrs(k)
    ensures SECTSIZE * lba + SECTSIZE <= |d| && HeaderReadable(d, lba, i) && HeaderAt(d, lba, i) + 56 <= |d|
    ensures Seg(d, lba, i) == Phdr(k, i)
  {
    hide Field, OnDisk;
    HeaderFound(d, lba, k);
    assert PhdrOk(k, i);
    var o := PhdrAt(k, i);
    SectorHeld(d, lba, k, o);
    HeaderSlice(d, lba, k, o);
    SameHeader(d, SECTSIZE * lba + o, k, o);
  }

  lemma HeaderSlice(d: seq<byte>, lba: nat, k: seq<byte>, o: nat)
    requires FileAt(d, lba, k) && o + 56 <= |k|
    ensures SECTSIZE * lba + o + 56 <= |d|
    ensures d[SECTSIZE * lba + o..SECTSIZE * lba + o + 56] == k[o..o + 56]
  {
    SliceOfSlice(d, SECTSIZE * lba, SECTSIZE * lba + |k|, o, o + 56);
  }

  lemma HeadersFound(d: seq<byte>, lba: nat, k: seq<byte>)
    requires FileAt(d, lba, k) && HasPhdrs(k)
    ensures HeadersReadable(d, lba) && PhNum(d, lba) == Phdrs(k)
    ensures forall i :: 0 <= i < Phdrs(k) ==> SegOf(d, lba, i) == Phdr(k, i)
    ensures forall i: nat :: IsSegment(d, lba, i) <==> Picked(k, i)
  {
    hide FileAt, Phdr, PhOff, PhNum, Seg, HeaderReadable, HeaderAt;
    HeaderFound(d, lba, k);
    forall i | 0 <= i < Phdrs(k)
      ensures HeaderReadable(d, lba, i) && HeaderAt(d, lba, i) + 56 <= |d| && Seg(d, lba, i) == Phdr(k, i)
    {
      PhdrFound(d, lba, k, i);
    }
  }

  lemma SegmentFound(d: seq<byte>, lba: nat, k: seq<byte>, g: Segment, memSize: nat, data: nat)
    requires FileAt(d, lba, k) && HasHeader(k) && SegmentOk(k, g, memSize, data)
    ensures Loadable(d, lba, g, memSize, data)
  {
    if g.filesz > 0 {
      SectorHeld(d, lba, k, g.offset + g.filesz - 1);
    }
  }

  lemma KernelFound(d: seq<byte>, lba: nat, k: seq<byte>, memSize: nat, data: nat)
    requires FileAt(d, lba, k) && ElfOk(k, memSize, data)
    ensures HeadersReadable(d, lba) && KernelOk(d, lba, memSize, data)
  {
    hide FileAt, Phdr, SegOf, IsSegment, Loadable, SegmentOk;
    HeadersFound(d, lba, k);
    forall i | IsSegment(d, lba, i)
      ensures Loadable(d, lba, SegOf(d, lba, i), memSize, data)
    {
      SegmentFound(d, lba, k, Phdr(k, i), memSize, data);
    }
  }

  // ----- loading -----

  lemma SegmentIsLoaded(m: seq<byte>, d: seq<byte>, lba: nat, k: seq<byte>, g: Segment, memSize: nat, data: nat)
    requires FileAt(d, lba, k) && SegmentOk(k, g, memSize, data) && Boot.Holds(m, d, lba, g)
    ensures SegmentLoaded(m, k, g)
  {
    var o := SECTSIZE * lba;
    forall x | g.paddr <= x < g.paddr + g.filesz
      ensures m[x] == k[g.offset + (x - g.paddr)]
    {
      assert d[o..o + |k|][g.offset + (x - g.paddr)] == d[o + g.offset + (x - g.paddr)];
    }
    assert m[g.paddr..g.paddr + g.filesz] == k[g.offset..g.offset + g.filesz];
    assert m[g.paddr + g.filesz..g.paddr + g.memsz] == Zeros(g.memsz - g.filesz);
  }

  lemma KernelIsLoaded(before: seq<byte>, after: seq<byte>, d: seq<byte>, lba: nat, k: seq<byte>, data: nat)
    requires FileAt(d, lba, k) && ElfOk(k, |before|, data) && HeadersReadable(d, lba)
    requires LoadedUpTo(before, after, d, lba, data, PhNum(d, lba))
    ensures ElfLoaded(before, after, k, data)
  {
    hide FileAt, Phdr, SegOf, IsSegment, Boot.Holds, SegmentLoaded, SegmentOk;
    HeadersFound(d, lba, k);
    forall i | Picked(k, i)
      ensures SegmentLoaded(after, k, Phdr(k, i))
    {
      SegmentIsLoaded(after, d, lba, k, Phdr(k, i), |before|, data);
    }
    forall x | 0 <= x < |before| && Outside(k, data, x)
      ensures after[x] == before[x]
    {
      assert Foreign(d, lba, data, PhNum(d, lba), x);
    }
  }

  /** The loading loop, described by the file alone. */
  method LoadElf(mem: array<byte>, disk: seq<byte>, lba: nat, data: nat, ghost k: seq<byte>)
    requires FileAt(disk, lba, k) && ElfOk(k, mem.Length, data)
    requires data + SECTSIZE <= mem.Length <= U32 && SECTOR_DATA_START + SECTSIZE <= mem.Length
    requires Apart(data, SECTSIZE, SECTOR_DATA_START, SECTSIZE)
    modifies mem
    ensures ElfLoaded(old(mem[..]), mem[..], k, data)
  {
    hide FileAt, ElfLoaded, KernelOk, LoadedUpTo;
    KernelFound(disk, lba, k, mem.Length, data);
    LoadKernel(mem, disk, lba, data);
    KernelIsLoaded(old(mem[..]), mem[..], disk, lba, k, data);
  }

  // ----- files given by their printed headers -----

  /** What the loader makes of a program header. */
  function Read(p: ProgramHeader): Segment {
    Segment(p.kind, p.offset, p.paddr, p.filesz, p.memsz)
  }

  lemma ProgramRead(k: seq<byte>, o: nat, p: ProgramHeader)
    requires o + 56 <= |k| && k[o..o + 56] == PrintProgram(p) && ProgramFits(p)
    ensures SegmentAt(k, o) == Read(p) && (Read(p).Selected() <==> Loads(p))
  {
    hide Field, PrintProgram;
    KindAt(p);
    OffsetAt(p);
    AddressAt(p);
    SizesAt(p);
    SameHeader(k, o, PrintProgram(p), 0);
    assert PrintProgram(p)[0..0 + 56] == PrintProgram(p);
  }

  lemma HeaderRead(k: seq<byte>, e: FileHeader, ps: seq<ProgramHeader>)
    requires IsElf(k, e, ps)
    ensures HasHeader(k) && Phdrs(k) == |ps| && forall i: nat :: PhdrAt(k, i) == e.phoff + 56 * i
  {
    hide Field, PrintHeader, PrintTable;
    HeaderAtFields(e);
    HeaderField(k, e, 32, 8);
    HeaderField(k, e, 56, 2);
  }

  lemma HeaderField(k: seq<byte>, e: FileHeader, o: nat, w: nat)
    requires 64 <= |k| && |e.ident| == 16 && k[..64] == PrintHeader(e) && o + w <= 64
    ensures Field(k, o, w) == Field(PrintHeader(e), o, w)
  {
    hide PrintHeader;
    assert k[..64] == k[0..64];
    SliceOfSlice(k, 0, 64, o, o + w);
  }

  lemma TableRead(k: seq<byte>, e: FileHeader, ps: seq<ProgramHeader>, i: nat)
    requires IsElf(k, e, ps) && i < |ps|
    ensures var o := e.phoff + 56 * i;
      o + 56 <= |k| && SegmentAt(k, o) == Read(ps[i]) && (Read(ps[i]).Selected() <==> Loads(ps[i]))
  {
    hide PrintProgram, PrintHeader, PrintTable, Field;
    TableAt(ps, i);
    SliceOfSlice(k, e.phoff, e.phoff + 56 * |ps|, 56 * i, 56 * i + 56);
    ProgramRead(k, e.phoff + 56 * i, ps[i]);
  }

  /** No header straddles a sector; the loaded ones lie inside the file, apart from the loader and from each other. */
  ghost predicate PrintedOk(k: seq<byte>, e: FileHeader, ps: seq<ProgramHeader>, memSize: nat, data: nat) {
    && IsElf(k, e, ps)
    && (forall i :: 0 <= i < |ps| ==> InSector(e, i))
    && (forall i :: 0 <= i < |ps| && Loads(ps[i]) ==> SegmentOk(k, Read(ps[i]), memSize, data))
    && forall i, j :: 0 <= i < |ps| && 0 <= j < |ps| && Loads(ps[i]) && Loads(ps[j]) && i != j ==>
         SegmentsApart(Read(ps[i]), Read(ps[j]))
  }

  predicate InSector(e: FileHeader, i: nat) {
    (e.phoff + 56 * i) % SECTSIZE + 56 <= SECTSIZE
  }

  /** Memory at the physical address of `p` holds its slice of the file, then zeros. */
  ghost predicate ProgramLoaded(m: seq<byte>, k: seq<byte>, p: ProgramHeader) {
    && p.paddr + p.memsz <= |m| && p.filesz <= p.memsz && p.offset + p.filesz <= |k|
    && m[p.paddr..p.paddr + p.filesz] == k[p.offset..p.offset + p.filesz]
    && m[p.paddr + p.filesz..p.paddr + p.memsz] == Zeros(p.memsz - p.filesz)
  }

  /** Every header whose type has bit 0 set is loaded, and no memory but theirs and the loader's has changed. */
  ghost predicate PrintedLoaded(before: seq<byte>, after: seq<byte>, k: seq<byte>, ps: seq<ProgramHeader>, data: nat) {
    && |before| == |after|
    && (forall i :: 0 <= i < |ps| && Loads(ps[i]) ==> ProgramLoaded(after, k, ps[i]))
    && forall x :: 0 <= x < |before| && Untouched(ps, data, x) ==> after[x] == before[x]
  }

  ghost predicate Untouched(ps: seq<ProgramHeader>, data: nat, x: nat) {
    && !Within(x, SECTOR_DATA_START, SECTSIZE) && !Within(x, data, SECTSIZE)
    && forall i :: 0 <= i < |ps| && Loads(ps[i]) ==> !Within(x, ps[i].paddr, ps[i].memsz)
  }

  lemma PrintedHeaders(k: seq<byte>, e: FileHeader, ps: seq<ProgramHeader>)
    requires IsElf(k, e, ps) && forall i :: 0 <= i < |ps| ==> InSector(e, i)
    ensures HasPhdrs(k) && Phdrs(k) == |ps|
    ensures forall i :: 0 <= i < |ps| ==> Phdr(k, i) == Read(ps[i])
    ensures forall i: nat :: Picked(k, i) <==> i < |ps| && Loads(ps[i])
  {
    hide IsElf, SegmentAt, Read, Loads;
    HeaderRead(k, e, ps);
    forall i | 0 <= i < |ps|
      ensures PhdrOk(k, i) && SegmentAt(k, PhdrAt(k, i)) == Read(ps[i]) && (Read(ps[i]).Selected() <==> Loads(ps[i]))
    {
      assert InSector(e, i);
      TableRead(k, e, ps, i);
    }
  }

  lemma PrintedElf(k: seq<byte>, e: FileHeader, ps: seq<ProgramHeader>, memSize: nat, data: nat)
    requires PrintedOk(k, e, ps, memSize, data)
    ensures ElfOk(k, memSize, data)
  {
    hide IsElf, Phdr, Picked, SegmentOk, Read, Loads;
    PrintedHeaders(k, e, ps);
  }

  lemma PrintedIsLoaded(before: seq<byte>, after: seq<byte>, k: seq<byte>, e: FileHeader, ps: seq<ProgramHeader>,
                        data: nat)
    requires PrintedOk(k, e, ps, |before|, data) && HasPhdrs(k) && ElfLoaded(before, after, k, data)
    ensures PrintedLoaded(before, after, k, ps, data)
  {
    hide IsElf, Phdr, Picked, SegmentOk, Loads;
    PrintedHeaders(k, e, ps);
    forall i | 0 <= i < |ps| && Loads(ps[i])
      ensures ProgramLoaded(after, k, ps[i])
    {
      assert Picked(k, i);
      assert SegmentLoaded(after, k, Read(ps[i]));
    }
    forall x | 0 <= x < |before| && Untouched(ps, data, x)
      ensures after[x] == before[x]
    {
      assert Outside(k, data, x);
    }
  }

  /** The loading loop on a file given by its headers in the gABI's order. */
  method LoadPrinted(mem: array<byte>, disk: seq<byte>, lba: nat, data: nat, ghost k: seq<byte>, ghost e: FileHeader,
                     ghost ps: seq<ProgramHeader>)
    requires FileAt(disk, lba, k) && PrintedOk(k, e, ps, mem.Length, data)
    requires data + SECTSIZE <= mem.Length <= U32 && SECTOR_DATA_START + SECTSIZE <= mem.Length
    requires Apart(data, SECTSIZE, SECTOR_DATA_START, SECTSIZE)
    modifies mem
    ensures PrintedLoaded(old(mem[..]), mem[..], k, ps, data)
  {
    hide FileAt, ElfLoaded, PrintedOk, PrintedLoaded;
    PrintedElf(k, e, ps, mem.Length, data);
    LoadElf(mem, disk, lba, data, k);
    PrintedIsLoaded(old(mem[..]), mem[..], k, e, ps, data);
  }

  lemma FileIsAt(d: seq<byte>, g: Geometry, files: seq<File>, i: nat, part: nat, lba: nat)
    requires RepInv(d, g, files) && Sectored(g) && i < |files|
    requires g.base == 512 * part && g.sector == 512 && part + FileSector(g, files, i) == lba
    ensures FileAt(d, lba, files[i].contents) && |files[i].contents| < U32
  {
    hide FatImage.BootOk, FatImage.InfoOk, FatImage.TableOk, FatImage.Vacant, FatImage.BackupOk, FatImage.DataOk;
    FileHeld(d, g, files, i, part, lba);
    if files[i].contents != [] {
      FileSectorsInside(d, g, files, i, |files[i].contents|);
    }
    FatReader.ListedAt(d, g, files, i);
  }

  /**
   * Boot from mkgpt's disk: behind a first file of at most 4096 bytes, the
   * loader started at the sector the boot code passes loads the second file,
   * an ELF kernel: memory at the physical address of every header whose type
   * has bit 0 set holds that header's slice of the file followed by zeros.
   */
  method BootMkgpt(mem: array<byte>, disk: seq<byte>, data: nat, ghost files: seq<File>, ghost e: FileHeader,
                   ghost ps: seq<ProgramHeader>)
    requires FatRun.Shows(disk, Layout(MKGPT, 1536), files) && |files| >= 2 && |files[0].contents| <= 4096
    requires PrintedOk(files[1].contents, e, ps, mem.Length, data)
    requires data + SECTSIZE <= mem.Length <= U32 && SECTOR_DATA_START + SECTSIZE <= mem.Length
    requires Apart(data, SECTSIZE, SECTOR_DATA_START, SECTSIZE)
    modifies mem
    ensures PrintedLoaded(old(mem[..]), mem[..], files[1].contents, ps, data)
  {
    hide FatImage.RepInv, FatReader.Mount, FatReader.ListFrom, FatLayout.Placed, FatLayout.Sectored;
    hide FileAt, PrintedOk, PrintedLoaded;
    LayoutIsSound(MKGPT, 1536);
    BootSectors(disk, files);
    FileIsAt(disk, Layout(MKGPT, 1536), files, 1, 3, 539);
    LoadPrinted(mem, disk, 539, data, files[1].contents, e, ps);
  }
}
