/** The boot-time loader (bootloader/vmlinux.c): it reads files by sector alone,
    knowing nothing of FAT, and loads the segments of an ELF kernel. */
module Boot {
  import opened Bytes
  import Memory

  const SECTSIZE: nat := 512
  const SECTOR_DATA_START: nat := 0x1000

  /** read_disk, seen as a copy of one sector into memory. */
  method ReadDisk(mem: array<byte>, addr: nat, disk: seq<byte>, sect: nat)
    requires addr + SECTSIZE <= mem.Length && SECTSIZE * sect + SECTSIZE <= |disk|
    modifies mem
    ensures forall k :: 0 <= k < mem.Length ==>
      mem[k] == if addr <= k < addr + SECTSIZE then disk[SECTSIZE * sect + (k - addr)] else old(mem[k])
  {
    Memory.Store(mem, addr, disk[SECTSIZE * sect..SECTSIZE * sect + SECTSIZE]);
  }

  /** Every sector that holds one of the bytes [off, off + n) of the file at `fstart` is on the disk. */
  predicate OnDisk(disk: seq<byte>, fstart: nat, off: nat, n: nat) {
    n > 0 ==> SECTSIZE * (fstart + (off + n - 1) / SECTSIZE) + SECTSIZE <= |disk|
  }

  /** Memory after a read: the target holds file bytes, only the scratch sector is lost. */
  ghost predicate Loaded(before: seq<byte>, after: seq<byte>, addr: nat, disk: seq<byte>, from: nat, n: nat) {
    && |after| == |before| && (n > 0 ==> from + n <= |disk|)
    && forall k :: 0 <= k < |after| && !(SECTOR_DATA_START <= k < SECTOR_DATA_START + SECTSIZE) ==>
         after[k] == if addr <= k < addr + n then disk[from + (k - addr)] else before[k]
  }

  predicate Within(k: nat, a: nat, n: nat) {
    a <= k < a + n
  }

  predicate Apart(a: nat, n: nat, b: nat, m: nat) {
    a + n <= b || b + m <= a
  }

  /** __k_readfile */
  method ReadFile(mem: array<byte>, addr: nat, disk: seq<byte>, fstart: nat, foff: nat, fsize: nat)
    requires addr + fsize <= mem.Length && SECTOR_DATA_START + SECTSIZE <= mem.Length
    requires Apart(addr, fsize, SECTOR_DATA_START, SECTSIZE)
    requires OnDisk(disk, fstart, foff, fsize)
    modifies mem
    ensures Loaded(old(mem[..]), mem[..], addr, disk, SECTSIZE * fstart + foff, fsize)
  {
    var left: nat, off, dst := fsize, foff, addr;
    while left != 0
      invariant left <= fsize && off == foff + (fsize - left) && dst == addr + (fsize - left)
      invariant Loaded(old(mem[..]), mem[..], addr, disk, SECTSIZE * fstart + foff, fsize - left)
      decreases left
    {
      var start := off % SECTSIZE;
      var sector := fstart + off / SECTSIZE;
      var nb := SECTSIZE - start;
      nb := if nb > left then left else nb;
      SectorOnDisk(off, foff + fsize);
      ReadDisk(mem, SECTOR_DATA_START, disk, sector);
      CopyBytes(mem, dst, SECTOR_DATA_START + start, nb);
      left, off, dst := left - nb, off + nb, dst + nb;
    }
  }

  lemma SectorOnDisk(off: nat, end: nat)
    requires off < end
    ensures off / SECTSIZE <= (end - 1) / SECTSIZE
  {
  }

  /** The inner loop: nb bytes from the scratch sector to their place. */
  method CopyBytes(mem: array<byte>, dst: nat, src: nat, n: nat)
    requires dst + n <= mem.Length && src + n <= mem.Length && Apart(dst, n, src, n)
    modifies mem
    ensures forall k :: 0 <= k < mem.Length ==>
      mem[k] == if dst <= k < dst + n then old(mem[src + (k - dst)]) else old(mem[k])
  {
    Memory.Copy(mem, dst, src, n);
  }

  /** __k_memzero */
  method MemZero(mem: array<byte>, addr: nat, size: nat)
    requires addr + size <= mem.Length
    modifies mem
    ensures forall k :: 0 <= k < mem.Length ==> mem[k] == if addr <= k < addr + size then 0 else old(mem[k])
  {
    Memory.Clear(mem, addr, size);
  }

  // ----- the kernel image, as the loader reads it -----

  /** Elf64_Phdr, the fields the loader uses. */
  datatype Segment = Segment(kind: nat, offset: nat, paddr: nat, filesz: nat, memsz: nat) {
    /** `p_type & PT_LOAD`: every odd type passes. */
    predicate Selected() {
      kind % 2 == 1
    }
  }

  /** The program header stored at byte `o`. */
  function SegmentAt(s: seq<byte>, o: nat): Segment
    requires o + 56 <= |s|
  {
    Segment(Field(s, o, 4), Field(s, o + 8, 8), Field(s, o + 24, 8), Field(s, o + 32, 8), Field(s, o + 40, 8))
  }

  /** e_phoff as the loader truncates it, and e_phnum. */
  function PhOff(disk: seq<byte>, sector: nat): nat
    requires SECTSIZE * sector + SECTSIZE <= |disk|
  {
    Field(disk, SECTSIZE * sector + 32, 8) % U32
  }

  function PhNum(disk: seq<byte>, sector: nat): nat
    requires SECTSIZE * sector + SECTSIZE <= |disk|
  {
    Field(disk, SECTSIZE * sector + 56, 2)
  }

  /** Where program header `i` of the file at `sector` lies on the disk. */
  function HeaderAt(disk: seq<byte>, sector: nat, i: nat): nat
    requires SECTSIZE * sector + SECTSIZE <= |disk|
  {
    SECTSIZE * sector + PhOff(disk, sector) + 56 * i
  }

  /** Headers lie on the disk, none straddles a sector, and offsets fit 32 bits. */
  ghost predicate HeadersReadable(disk: seq<byte>, sector: nat) {
    && SECTSIZE * sector + SECTSIZE <= |disk|
    && forall i :: 0 <= i < PhNum(disk, sector) ==> HeaderReadable(disk, sector, i)
  }

  ghost predicate HeaderReadable(disk: seq<byte>, sector: nat, i: nat)
    requires SECTSIZE * sector + SECTSIZE <= |disk|
  {
    var off := PhOff(disk, sector) + 56 * i;
    off < U32 && off % SECTSIZE + 56 <= SECTSIZE && SECTSIZE * (sector + off / SECTSIZE) + SECTSIZE <= |disk|
  }

  function Seg(disk: seq<byte>, sector: nat, i: nat): Segment
    requires SECTSIZE * sector + SECTSIZE <= |disk| && HeaderAt(disk, sector, i) + 56 <= |disk|
  {
    SegmentAt(disk, HeaderAt(disk, sector, i))
  }

  lemma HeaderInside(disk: seq<byte>, sector: nat, i: nat)
    requires SECTSIZE * sector + SECTSIZE <= |disk| && HeaderReadable(disk, sector, i)
    ensures HeaderAt(disk, sector, i) + 56 <= |disk|
    ensures var off := PhOff(disk, sector) + 56 * i;
      SECTSIZE * (sector + off / SECTSIZE) + off % SECTSIZE == HeaderAt(disk, sector, i)
  {
  }

  /** A segment that can be loaded without touching the loader's own memory. */
  ghost predicate Loadable(disk: seq<byte>, sector: nat, g: Segment, memSize: nat, data: nat) {
    && g.filesz <= g.memsz && g.paddr + g.memsz <= memSize && g.offset + g.filesz < U32
    && Apart(g.paddr, g.memsz, SECTOR_DATA_START, SECTSIZE) && Apart(g.paddr, g.memsz, data, SECTSIZE)
    && OnDisk(disk, sector, g.offset, g.filesz)
  }

  /** `m` holds segment `g`: its file bytes, then zeros. */
  ghost predicate Holds(m: seq<byte>, disk: seq<byte>, sector: nat, g: Segment) {
    && g.paddr + g.memsz <= |m| && (g.filesz > 0 ==> SECTSIZE * sector + g.offset + g.filesz <= |disk|)
    && forall k :: g.paddr <= k < g.paddr + g.memsz ==>
         m[k] == if k < g.paddr + g.filesz then disk[SECTSIZE * sector + g.offset + (k - g.paddr)] else 0
  }

  /** Outside the loader's memory and `g`, `a` and `b` agree. */
  ghost predicate SameElsewhere(a: seq<byte>, b: seq<byte>, data: nat, addr: nat, n: nat) {
    && |a| == |b|
    && forall k :: 0 <= k < |a| ==>
         Within(k, SECTOR_DATA_START, SECTSIZE) || Within(k, data, SECTSIZE) || Within(k, addr, n) || a[k] == b[k]
  }

  /** One round of the loop: read a header and, if it is selected, load its segment. */
  method LoadSegment(mem: array<byte>, disk: seq<byte>, sector: nat, data: nat, i: nat, phoff: nat)
    requires SECTSIZE * sector + SECTSIZE <= |disk| && HeaderReadable(disk, sector, i) && phoff == PhOff(disk, sector)
    requires HeaderAt(disk, sector, i) + 56 <= |disk|
    requires data + SECTSIZE <= mem.Length <= U32 && SECTOR_DATA_START + SECTSIZE <= mem.Length
    requires Apart(data, SECTSIZE, SECTOR_DATA_START, SECTSIZE)
    requires Seg(disk, sector, i).Selected() ==> Loadable(disk, sector, Seg(disk, sector, i), mem.Length, data)
    modifies mem
    ensures Seg(disk, sector, i).Selected() ==> Holds(mem[..], disk, sector, Seg(disk, sector, i))
    ensures Seg(disk, sector, i).Selected() ==>
      SameElsewhere(old(mem[..]), mem[..], data, Seg(disk, sector, i).paddr, Seg(disk, sector, i).memsz)
    ensures !Seg(disk, sector, i).Selected() ==> SameElsewhere(old(mem[..]), mem[..], data, 0, 0)
  {
    hide Bytes.FromLe;
    var off := phoff + 56 * i;
    ReadDisk(mem, data, disk, sector + off / SECTSIZE);
    HeaderInside(disk, sector, i);
    var hdr := data + off % SECTSIZE;
    HeaderCopied(mem[..], data, disk, SECTSIZE * (sector + off / SECTSIZE), off % SECTSIZE);
    SameHeader(mem[..], hdr, disk, HeaderAt(disk, sector, i));
    var kind := Memory.LoadLe(mem, hdr, 4);
    if kind % 2 == 1 {
      Place(mem, hdr, disk, sector, data, Seg(disk, sector, i));
    }
  }

  /** A header inside a sector that has been read. */
  lemma HeaderCopied(m: seq<byte>, data: nat, d: seq<byte>, from: nat, o: nat)
    requires data + SECTSIZE <= |m| && from + SECTSIZE <= |d| && o + 56 <= SECTSIZE
    requires forall k :: data <= k < data + SECTSIZE ==> m[k] == d[from + (k - data)]
    ensures m[data + o..data + o + 56] == d[from + o..from + o + 56]
  {
  }

  /** The header in memory is the header on the disk. */
  lemma SameHeader(m: seq<byte>, a: nat, d: seq<byte>, b: nat)
    requires a + 56 <= |m| && b + 56 <= |d| && m[a..a + 56] == d[b..b + 56]
    ensures SegmentAt(m, a) == SegmentAt(d, b)
  {
    SameField(m, a, d, b, 0, 4);
    SameField(m, a, d, b, 8, 8);
    SameField(m, a, d, b, 24, 8);
    SameField(m, a, d, b, 32, 8);
    SameField(m, a, d, b, 40, 8);
  }

  lemma SameField(m: seq<byte>, a: nat, d: seq<byte>, b: nat, off: nat, w: nat)
    requires off + w <= 56 && a + 56 <= |m| && b + 56 <= |d| && m[a..a + 56] == d[b..b + 56]
    ensures Field(m, a + off, w) == Field(d, b + off, w)
  {
    SliceOfSlice(m, a, a + 56, off, off + w);
    SliceOfSlice(d, b, b + 56, off, off + w);
  }

  /** Load a segment whose header lies at `hdr`; the header is read again after the file bytes are in place. */
  method Place(mem: array<byte>, hdr: nat, disk: seq<byte>, sector: nat, data: nat, ghost g: Segment)
    requires data <= hdr && hdr + 56 <= data + SECTSIZE <= mem.Length <= U32
    requires SECTOR_DATA_START + SECTSIZE <= mem.Length
    requires Apart(data, SECTSIZE, SECTOR_DATA_START, SECTSIZE)
    requires SegmentAt(mem[..], hdr) == g && Loadable(disk, sector, g, mem.Length, data)
    modifies mem
    ensures Holds(mem[..], disk, sector, g) && SameElsewhere(old(mem[..]), mem[..], data, g.paddr, g.memsz)
  {
    hide Bytes.FromLe, Holds, SameElsewhere, Loaded, OnDisk;
    NotTruncated(disk, sector, g, mem.Length, data);
    ghost var m := mem[..];
    var paddr := Memory.LoadLe(mem, hdr + 24, 8);
    var offset := Memory.LoadLe(mem, hdr + 8, 8);
    var filesz := Memory.LoadLe(mem, hdr + 32, 8);
    ReadFile(mem, paddr, disk, sector, offset % U32, filesz % U32);
    ghost var m' := mem[..];
    HeaderKept(m, m', hdr, data, disk, sector, g);
    paddr, filesz := Memory.LoadLe(mem, hdr + 24, 8), Memory.LoadLe(mem, hdr + 32, 8);
    var memsz := Memory.LoadLe(mem, hdr + 40, 8);
    MemZero(mem, paddr + filesz, (memsz - filesz) % U32);
    SegmentDone(m, m', mem[..], data, disk, sector, g);
  }

  lemma NotTruncated(disk: seq<byte>, sector: nat, g: Segment, memSize: nat, data: nat)
    requires Loadable(disk, sector, g, memSize, data) && SECTOR_DATA_START + SECTSIZE <= memSize <= U32
    ensures g.offset % U32 == g.offset && g.filesz % U32 == g.filesz && (g.memsz - g.filesz) % U32 == g.memsz - g.filesz
  {
  }

  lemma HeaderKept(m: seq<byte>, m': seq<byte>, hdr: nat, data: nat, disk: seq<byte>, sector: nat, g: Segment)
    requires data <= hdr && hdr + 56 <= data + SECTSIZE <= |m|
    requires Apart(data, SECTSIZE, SECTOR_DATA_START, SECTSIZE) && Apart(g.paddr, g.memsz, data, SECTSIZE)
    requires g.filesz <= g.memsz
    requires Loaded(m, m', g.paddr, disk, SECTSIZE * sector + g.offset, g.filesz)
    ensures SegmentAt(m', hdr) == SegmentAt(m, hdr)
  {
    assert m[hdr..hdr + 56] == m'[hdr..hdr + 56];
    SameHeader(m', hdr, m, hdr);
  }

  lemma SegmentDone(m: seq<byte>, m': seq<byte>, m'': seq<byte>, data: nat, disk: seq<byte>, sector: nat, g: Segment)
    requires Loadable(disk, sector, g, |m|, data)
    requires Loaded(m, m', g.paddr, disk, SECTSIZE * sector + g.offset, g.filesz)
    requires |m''| == |m'| && forall k :: 0 <= k < |m'| ==>
      m''[k] == if g.paddr + g.filesz <= k < g.paddr + g.memsz then 0 else m'[k]
    ensures Holds(m'', disk, sector, g) && SameElsewhere(m, m'', data, g.paddr, g.memsz)
  {
  }

  // ----- the loop -----

  ghost predicate IsSegment(disk: seq<byte>, sector: nat, i: nat)
    requires HeadersReadable(disk, sector)
  {
    i < PhNum(disk, sector) && (HeaderInside(disk, sector, i); Seg(disk, sector, i).Selected())
  }

  predicate SegmentsApart(g: Segment, h: Segment) {
    Apart(g.paddr, g.memsz, h.paddr, h.memsz)
  }

  /** The segments the loader selects are loadable and pairwise apart. */
  ghost predicate KernelOk(disk: seq<byte>, sector: nat, memSize: nat, data: nat)
    requires HeadersReadable(disk, sector)
  {
    && (forall i :: IsSegment(disk, sector, i) ==> Loadable(disk, sector, SegOf(disk, sector, i), memSize, data))
    && (forall i, j :: IsSegment(disk, sector, i) && IsSegment(disk, sector, j) && i != j ==>
          SegmentsApart(SegOf(disk, sector, i), SegOf(disk, sector, j)))
  }

  ghost function SegOf(disk: seq<byte>, sector: nat, i: nat): Segment
    requires HeadersReadable(disk, sector) && i < PhNum(disk, sector)
  {
    HeaderInside(disk, sector, i);
    Seg(disk, sector, i)
  }

  /** Address `k` belongs to no selected segment below `n`, nor to the loader. */
  ghost predicate Foreign(disk: seq<byte>, sector: nat, data: nat, n: nat, k: nat)
    requires HeadersReadable(disk, sector)
  {
    && !Within(k, SECTOR_DATA_START, SECTSIZE) && !Within(k, data, SECTSIZE)
    && forall i :: 0 <= i < n && IsSegment(disk, sector, i) ==>
         !Within(k, SegOf(disk, sector, i).paddr, SegOf(disk, sector, i).memsz)
  }

  /** Memory after the first `n` headers. */
  ghost predicate LoadedUpTo(before: seq<byte>, after: seq<byte>, disk: seq<byte>, sector: nat, data: nat, n: nat)
    requires HeadersReadable(disk, sector)
  {
    && |before| == |after|
    && (forall i :: 0 <= i < n && IsSegment(disk, sector, i) ==> Holds(after, disk, sector, SegOf(disk, sector, i)))
    && (forall k :: 0 <= k < |before| && Foreign(disk, sector, data, n, k) ==> after[k] == before[k])
  }

  lemma HoldsKept(a: seq<byte>, b: seq<byte>, disk: seq<byte>, sector: nat, data: nat, g: Segment, addr: nat, n: nat)
    requires Holds(a, disk, sector, g) && SameElsewhere(a, b, data, addr, n)
    requires Apart(g.paddr, g.memsz, SECTOR_DATA_START, SECTSIZE) && Apart(g.paddr, g.memsz, data, SECTSIZE)
    requires Apart(g.paddr, g.memsz, addr, n)
    ensures Holds(b, disk, sector, g)
  {
  }

  lemma LoadedStep(m: seq<byte>, a: seq<byte>, b: seq<byte>, disk: seq<byte>, sector: nat, data: nat, n: nat)
    requires HeadersReadable(disk, sector) && KernelOk(disk, sector, |m|, data) && n < PhNum(disk, sector)
    requires LoadedUpTo(m, a, disk, sector, data, n)
    requires IsSegment(disk, sector, n) ==> Holds(b, disk, sector, SegOf(disk, sector, n))
    requires IsSegment(disk, sector, n) ==>
      SameElsewhere(a, b, data, SegOf(disk, sector, n).paddr, SegOf(disk, sector, n).memsz)
    requires !IsSegment(disk, sector, n) ==> SameElsewhere(a, b, data, 0, 0)
    ensures LoadedUpTo(m, b, disk, sector, data, n + 1)
  {
    forall i | 0 <= i < n + 1 && IsSegment(disk, sector, i)
      ensures Holds(b, disk, sector, SegOf(disk, sector, i))
    {
      if i < n {
        var g := SegOf(disk, sector, i);
        if IsSegment(disk, sector, n) {
          HoldsKept(a, b, disk, sector, data, g, SegOf(disk, sector, n).paddr, SegOf(disk, sector, n).memsz);
        } else {
          HoldsKept(a, b, disk, sector, data, g, 0, 0);
        }
      }
    }
    forall k | 0 <= k < |m| && Foreign(disk, sector, data, n + 1, k)
      ensures b[k] == m[k]
    {
      assert Foreign(disk, sector, data, n, k);
    }
  }

  /**
   * The loading loop of __elf_main: every selected segment ends up holding its
   * file bytes followed by zeros, and no memory but theirs, the scratch sector
   * and the loader's own sector buffer changes.
   */
  method LoadKernel(mem: array<byte>, disk: seq<byte>, sector: nat, data: nat)
    requires HeadersReadable(disk, sector) && KernelOk(disk, sector, mem.Length, data)
    requires data + SECTSIZE <= mem.Length <= U32 && SECTOR_DATA_START + SECTSIZE <= mem.Length
    requires Apart(data, SECTSIZE, SECTOR_DATA_START, SECTSIZE)
    modifies mem
    ensures LoadedUpTo(old(mem[..]), mem[..], disk, sector, data, PhNum(disk, sector))
  {
    ghost var m := mem[..];
    ReadDisk(mem, data, disk, sector);
    EhdrRead(mem[..], data, disk, sector);
    var phnum := Memory.LoadLe(mem, data + 56, 2);
    var phoff := Memory.LoadLe(mem, data + 32, 8) % U32;
    for i := 0 to phnum
      invariant LoadedUpTo(m, mem[..], disk, sector, data, i)
    {
      ghost var a := mem[..];
      HeaderInside(disk, sector, i);
      assert IsSegment(disk, sector, i) <==> Seg(disk, sector, i).Selected();
      LoadSegment(mem, disk, sector, data, i, phoff);
      LoadedStep(m, a, mem[..], disk, sector, data, i);
    }
  }

  lemma EhdrRead(m: seq<byte>, data: nat, disk: seq<byte>, sector: nat)
    requires data + SECTSIZE <= |m| && SECTSIZE * sector + SECTSIZE <= |disk|
    requires m[data..data + SECTSIZE] == disk[SECTSIZE * sector..SECTSIZE * sector + SECTSIZE]
    ensures Field(m, data + 56, 2) == PhNum(disk, sector) && Field(m, data + 32, 8) % U32 == PhOff(disk, sector)
  {
    SliceOfSlice(m, data, data + SECTSIZE, 56, 58);
    SliceOfSlice(m, data, data + SECTSIZE, 32, 40);
    SliceOfSlice(disk, SECTSIZE * sector, SECTSIZE * sector + SECTSIZE, 56, 58);
    SliceOfSlice(disk, SECTSIZE * sector, SECTSIZE * sector + SECTSIZE, 32, 40);
  }
}
