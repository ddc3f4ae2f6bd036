/** FAT32Copyin (gpt/fat.c): the stages of a copy on the bytes of the disk, and
    what each of them means for the list of files. */
module FatCopy {
  import opened Arith
  import opened Wrappers
  import opened Bytes
  import Memory
  import Endian
  import opened FatLayout
  import opened FatImage
  import opened FatReader
  import opened FatSteps
  import opened FatSuper
  import opened FatSpec
  import opened FatFormat

  // ----- the stages of a copy -----

  /** memset, lseek and read: false when the kernel fails or delivers too little. */
  method ReadInto(disk: array<byte>, at: nat, bytes: nat, fd: Fd) returns (ok: bool)
    requires fd.stat.Some? && fd.Honest() && fd.Size() <= bytes && at + bytes <= disk.Length
    modifies disk
    ensures ok <==> fd.Delivers()
    ensures OnlyIn(old(disk[..]), disk[..], at, at + bytes)
    ensures ok ==> disk[..][at..at + bytes] == fd.data.value + Zeros(bytes - fd.Size())
  {
    Memory.Clear(disk, at, bytes);
    if !fd.seekOk || fd.data.None? {
      return false;
    }
    Memory.Store(disk, at, fd.data.value);
    return |fd.data.value| == fd.Size();
  }

  /** The two loops that copy a name around its first dot. */
  method WriteName(disk: array<byte>, at: nat, name: seq<byte>)
    requires LegalName(name) && at + 11 <= disk.Length
    requires forall k :: at <= k < at + 11 ==> disk[k] == 0
    modifies disk
    ensures OnlyIn(old(disk[..]), disk[..], at, at + 11)
    ensures disk[..][at..at + 11] == ShortName(name)
  {
    hide Prefix, ShortName;
    PrefixIsPrefix(name);
    ghost var p := |Prefix(name)|;
    assert forall k :: 0 <= k < p ==> name[k] == Prefix(name)[k] != DOT;
    var i, pt := 0, at;
    while i < |name| && name[i] != DOT
      invariant i <= p && pt == at + i
      invariant OnlyIn(old(disk[..]), disk[..], at, at + 11)
      invariant forall k :: at <= k < at + 11 ==> disk[k] == if k - at < i then name[k - at] else 0
    {
      disk[pt] := name[i];
      i, pt := i + 1, pt + 1;
    }
    if i < |name| {
      CopySuffix(disk, at, name, i);
    }
    NameField(disk[..], at, name);
  }

  /** The second loop, from the dot on. */
  method CopySuffix(disk: array<byte>, at: nat, name: seq<byte>, p: nat)
    requires p < |name| <= p + 3 && p <= 11 && at + 11 <= disk.Length
    modifies disk
    ensures forall k :: 0 <= k < disk.Length ==>
      disk[k] == if at + 8 <= k < at + 8 + (|name| - p) then name[p + (k - at - 8)] else old(disk[k])
  {
    var i, pt := p, at + 8;
    while i < |name|
      invariant p <= i <= |name| && pt == at + 8 + (i - p)
      invariant forall k :: 0 <= k < disk.Length ==>
        disk[k] == if at + 8 <= k < at + 8 + (i - p) then name[p + (k - at - 8)] else old(disk[k])
    {
      disk[pt] := name[i];
      i, pt := i + 1, pt + 1;
    }
  }

  /** Eleven bytes that hold the prefix, zeros and the suffix are the name field. */
  lemma NameField(d: seq<byte>, at: nat, name: seq<byte>)
    requires LegalName(name) && at + 11 <= |d| && |Prefix(name)| <= |name|
    requires forall k :: at <= k < at + 11 ==>
      d[k] == if at + 8 <= k < at + 8 + (|name| - |Prefix(name)|) then name[|Prefix(name)| + (k - at - 8)]
              else if k - at < |Prefix(name)| then name[k - at] else 0
    ensures d[at..at + 11] == ShortName(name)
  {
    PrefixIsPrefix(name);
    var p := |Prefix(name)|;
    assert forall k :: 0 <= k < p ==> name[k] == name[..p][k] == Prefix(name)[k];
  }

  /** The directory entry, field by field. */
  method WriteDirEntry(disk: array<byte>, at: nat, name: seq<byte>, attr: nat, first: nat, size: nat)
    requires LegalName(name) && at + 32 <= disk.Length
    modifies disk
    ensures OnlyIn(old(disk[..]), disk[..], at, at + 32)
    ensures forall k :: at <= k < at + 32 ==> disk[k] == DirByte(ShortName(name), attr % 256, first, size, k - at)
  {
    Memory.Clear(disk, at, 32);
    WriteName(disk, at, name);
    ghost var d := disk[..];
    assert forall k :: at <= k < at + 11 ==> disk[k] == d[at..at + 11][k - at];
    WriteNumbers(disk, at, attr, first, size, ShortName(name));
  }

  method WriteNumbers(disk: array<byte>, at: nat, attr: nat, first: nat, size: nat, ghost name: seq<byte>)
    requires |name| == 11 && at + 32 <= disk.Length
    requires forall k :: at <= k < at + 11 ==> disk[k] == name[k - at]
    modifies disk
    ensures OnlyIn(old(disk[..]), disk[..], at, at + 32)
    ensures forall k :: at <= k < at + 32 ==> disk[k] == DirByte(name, attr % 256, first, size, k - at)
  {
    Memory.Store(disk, at + 11, [attr % 256, 0, 42]);
    Endian.Store(Endian.HOST, disk, at + 14, 2, 0x43CC);
    Endian.Store(Endian.HOST, disk, at + 16, 2, 0x1E55);
    Endian.Store(Endian.HOST, disk, at + 18, 2, 0x1E55);
    Endian.Store(Endian.HOST, disk, at + 20, 2, first / 0x1_0000);
    Endian.Store(Endian.HOST, disk, at + 22, 2, 0x43CC);
    Endian.Store(Endian.HOST, disk, at + 24, 2, 0x1E55);
    Endian.Store(Endian.HOST, disk, at + 26, 2, first % 0x1_0000);
    Endian.Store(Endian.HOST, disk, at + 28, 4, size);
  }

  // ----- what the stages mean -----

  /** The `n` bytes at `a` of `v` are at `b` of `w`. */
  ghost predicate CopiedTo(v: seq<byte>, w: seq<byte>, a: nat, b: nat, n: nat)
    requires a + n <= |v|
  {
    b + n <= |w| && w[b..b + n] == v[a..a + n]
  }

  /** `w` is `v` after FAT32SuperFree, which copies whole sectors. */
  ghost predicate SectorsCopied(v: seq<byte>, w: seq<byte>, g: Geometry)
    requires Fits(v, g)
  {
    && OnlyIn(v, w, g.base + 6 * g.sector, g.base + 8 * g.sector)
    && CopiedTo(v, w, g.base, g.base + 6 * g.sector, g.sector)
    && CopiedTo(v, w, g.base + g.sector, g.base + 7 * g.sector, g.sector)
  }

  /** FAT32SuperFree: whole sectors 0 and 1 go to 6 and 7. */
  method SuperFree(disk: array<byte>, g: Geometry)
    requires Fits(disk[..], g)
    modifies disk
    ensures SectorsCopied(old(disk[..]), disk[..], g)
  {
    hide FatLayout.ClusterOff;
    CopySectors(disk, g.base, g.sector);
  }

  method CopySectors(disk: array<byte>, o: nat, s: nat)
    requires o + 8 * s <= disk.Length
    modifies disk
    ensures OnlyIn(old(disk[..]), disk[..], o + 6 * s, o + 8 * s)
    ensures CopiedTo(old(disk[..]), disk[..], o, o + 6 * s, s)
    ensures CopiedTo(old(disk[..]), disk[..], o + s, o + 7 * s, s)
  {
    hide CopiedTo;
    ghost var d0 := disk[..];
    CopyBlock(disk, o + 6 * s, o, s);
    ghost var d1 := disk[..];
    CopyBlock(disk, o + 7 * s, o + s, s);
    BothCopied(d0, d1, disk[..], o, s);
  }

  method CopyBlock(disk: array<byte>, dst: nat, src: nat, n: nat)
    requires src + n <= dst && dst + n <= disk.Length
    modifies disk
    ensures OnlyIn(old(disk[..]), disk[..], dst, dst + n) && CopiedTo(old(disk[..]), disk[..], src, dst, n)
  {
    Memory.Copy(disk, dst, src, n);
  }

  lemma BothCopied(d0: seq<byte>, d1: seq<byte>, d2: seq<byte>, o: nat, s: nat)
    requires o + 8 * s <= |d0|
    requires OnlyIn(d0, d1, o + 6 * s, o + 6 * s + s) && CopiedTo(d0, d1, o, o + 6 * s, s)
    requires OnlyIn(d1, d2, o + 7 * s, o + 7 * s + s) && CopiedTo(d1, d2, o + s, o + 7 * s, s)
    ensures OnlyIn(d0, d2, o + 6 * s, o + 8 * s)
    ensures CopiedTo(d0, d2, o, o + 6 * s, s) && CopiedTo(d0, d2, o + s, o + 7 * s, s)
  {
    OnlyInSlice(d1, d2, o + 7 * s, o + 7 * s + s, o + 6 * s, o + 6 * s + s);
    OnlyInSlice(d0, d1, o + 6 * s, o + 6 * s + s, o + s, o + s + s);
  }

  lemma StartsCopied(v: seq<byte>, w: seq<byte>, a: nat, b: nat, s: nat)
    requires 512 <= s && a + s <= |v| && CopiedTo(v, w, a, b, s)
    ensures b + 512 <= |w| && w[b..b + 512] == v[a..a + 512]
  {
    SliceOfSlice(w, b, b + s, 0, 512);
    SliceOfSlice(v, a, a + s, 0, 512);
  }

  lemma SyncedBackup(v: seq<byte>, w: seq<byte>, g: Geometry)
    requires Fits(v, g) && SectorsCopied(v, w, g)
    ensures Fits(w, g) && BackupOk(w, g)
  {
    hide FatLayout.ClusterOff;
    CopiesMatch(v, w, g.base, g.sector);
  }

  lemma CopiesMatch(v: seq<byte>, w: seq<byte>, o: nat, s: nat)
    requires 512 <= s && o + 8 * s <= |v| && OnlyIn(v, w, o + 6 * s, o + 8 * s)
    requires CopiedTo(v, w, o, o + 6 * s, s) && CopiedTo(v, w, o + s, o + 7 * s, s)
    ensures w[o + 6 * s..o + 6 * s + 512] == w[o..o + 512]
    ensures w[o + 7 * s..o + 7 * s + 512] == w[o + s..o + s + 512]
  {
    hide CopiedTo;
    StartsCopied(v, w, o, o + 6 * s, s);
    StartsCopied(v, w, o + s, o + 7 * s, s);
    OnlyInSlice(v, w, o + 6 * s, o + 8 * s, o, o + 512);
    OnlyInSlice(v, w, o + 6 * s, o + 8 * s, o + s, o + s + 512);
  }

  /** A copy that fails before or during the transfer leaves the same files. */
  lemma FailedKeeps(v: seq<byte>, u: seq<byte>, w: seq<byte>, g: Geometry, files: seq<File>, hi: nat)
    requires RepInv(v, g, files)
    requires OnlyIn(v, u, ClusterOff(g, NextFree(g, files)), hi) && SectorsCopied(u, w, g)
    ensures RepInv(w, g, files)
  {
    FreeSpaceWritten(v, u, g, files, hi);
    BackedUp(u, w, g, files);
    SyncedBackup(u, w, g);
  }

  lemma InfoUpdated(v: seq<byte>, u: seq<byte>, w: seq<byte>, g: Geometry, files: seq<File>, f: File, free: nat)
    requires Fits(v, g) && InfoOk(v, g, files) && free == Field(v, g.base + g.sector + 488, 4) - Alloc(g, f)
    requires OnlyIn(v, u, g.base + g.sector + 488, g.base + g.sector + 492)
    requires Field(u, g.base + g.sector + 488, 4) == free
    requires OnlyIn(u, w, g.base + g.sector + 492, g.base + g.sector + 496)
    requires Field(w, g.base + g.sector + 492, 4) == NextFree(g, files + [f])
    ensures Fits(w, g) && InfoOk(w, g, files + [f])
  {
    hide Field, NextFree, Used, Alloc, FatLayout.ClusterOff, OnlyIn;
    var s := g.base + g.sector;
    Extended(g, files, f);
    SameInfo(v, u, s, s + 488);
    SameInfo(u, w, s, s + 492);
  }

  /** Writing one of the two counters leaves the other fields of FSInfo. */
  lemma SameInfo(v: seq<byte>, w: seq<byte>, s: nat, lo: nat)
    requires s + 512 <= |v| && OnlyIn(v, w, lo, lo + 4) && (lo == s + 488 || lo == s + 492)
    ensures |v| == |w| && Field(w, s, 4) == Field(v, s, 4) && Field(w, s + 484, 4) == Field(v, s + 484, 4)
    ensures Field(w, s + 508, 4) == Field(v, s + 508, 4)
    ensures lo == s + 492 ==> Field(w, s + 488, 4) == Field(v, s + 488, 4)
  {
    hide Field;
    FieldFrame(v, w, lo, lo + 4, s, 4);
    FieldFrame(v, w, lo, lo + 4, s + 484, 4);
    FieldFrame(v, w, lo, lo + 4, s + 508, 4);
    if lo == s + 492 {
      FieldFrame(v, w, lo, lo + 4, s + 488, 4);
    }
  }

  /** After the transfer and the directory entry: `f` has its data and its entry. */
  lemma EntryStage(d0: seq<byte>, d1: seq<byte>, d2: seq<byte>, g: Geometry, files: seq<File>, f: File)
    requires RepInv(d0, g, files) && FileOk(f) && |files| < Slots(g)
    requires OnlyIn(d0, d1, ClusterOff(g, NextFree(g, files)), ClusterOff(g, NextFree(g, files) + Alloc(g, f)))
    requires |d1| == |d0| && DataAt(d1, g, NextFree(g, files), f)
    requires OnlyIn(d1, d2, SlotOff(g, |files|), SlotOff(g, |files|) + 32)
    requires d2[SlotOff(g, |files|)..SlotOff(g, |files|) + 32] == DirEntry(f, NextFree(g, files))
    ensures Mixed(d2, g, files, files, files + [f], files + [f])
  {
    FreeSpaceWritten(d0, d1, g, files, ClusterOff(g, NextFree(g, files) + Alloc(g, f)));
    DataPlaced(d1, g, files, f);
    EntryPlaced(d1, d2, g, files, f);
  }

  /** After the tables, FSInfo and the backup sectors: the list has grown by `f`. */
  lemma FinalStage(d2: seq<byte>, d3: seq<byte>, d4: seq<byte>, d5: seq<byte>, d6: seq<byte>,
                   g: Geometry, files: seq<File>, f: File, free: nat)
    requires Mixed(d2, g, files, files, files + [f], files + [f])
    requires OnlyIn(d2, d3, g.base + 8 * g.sector, g.base + g.dataOff)
    requires TableOk(d3, g, 0, files + [f]) && TableOk(d3, g, 1, files + [f])
    requires OnlyIn(d3, d4, g.base + g.sector + 488, g.base + g.sector + 492)
    requires Field(d4, g.base + g.sector + 488, 4) == free
    requires OnlyIn(d4, d5, g.base + g.sector + 492, g.base + g.sector + 496)
    requires Field(d5, g.base + g.sector + 492, 4) == NextFree(g, files + [f]) <= g.maxCluster
    requires free == Field(d2, g.base + g.sector + 488, 4) - Alloc(g, f)
    requires SectorsCopied(d5, d6, g)
    ensures RepInv(d6, g, files + [f])
  {
    hide FatImage.BootOk, FatImage.InfoOk, FatImage.TableOk, FatImage.Listed, FatImage.Vacant, FatImage.DataOk;
    ChainPlaced(d2, d3, g, files, f);
    InfoFieldKept(d2, d3, g);
    InfoStage(d3, d4, d5, g, files, f, free);
    BackedUp(d5, d6, g, files + [f]);
    SyncedBackup(d5, d6, g);
  }

  lemma InfoFieldKept(v: seq<byte>, w: seq<byte>, g: Geometry)
    requires Fits(v, g) && OnlyIn(v, w, g.base + 8 * g.sector, g.base + g.dataOff)
    ensures Fits(w, g) && Field(w, g.base + g.sector + 488, 4) == Field(v, g.base + g.sector + 488, 4)
  {
    FieldFrame(v, w, g.base + 8 * g.sector, g.base + g.dataOff, g.base + g.sector + 488, 4);
  }

  lemma InfoStage(d3: seq<byte>, d4: seq<byte>, d5: seq<byte>, g: Geometry, files: seq<File>, f: File, free: nat)
    requires Mixed(d3, g, files, files + [f], files + [f], files + [f])
    requires OnlyIn(d3, d4, g.base + g.sector + 488, g.base + g.sector + 492)
    requires Field(d4, g.base + g.sector + 488, 4) == free == Field(d3, g.base + g.sector + 488, 4) - Alloc(g, f)
    requires OnlyIn(d4, d5, g.base + g.sector + 492, g.base + g.sector + 496)
    requires Field(d5, g.base + g.sector + 492, 4) == NextFree(g, files + [f])
    ensures Mixed(d5, g, files + [f], files + [f], files + [f], files + [f])
  {
    InfoUpdated(d3, d4, d5, g, files, f, free);
    InfoPlaced(d3, d5, g, files, files + [f]);
  }

  /** Only free clusters and the copies at sectors 6 and 7 may differ. */
  ghost predicate Unharmed(v: seq<byte>, w: seq<byte>, g: Geometry, files: seq<File>)
    requires g.clusterBytes > 0
  {
    OnlyInTwo(v, w, g.base + 6 * g.sector, g.base + 8 * g.sector, ClusterOff(g, NextFree(g, files)), g.base + g.size)
  }

  datatype Stage = IoFailed | BoundHit | Stored

  /** What the call would store; the contents matter only when the kernel delivers them. */
  ghost function NewFile(fd: Fd, name: seq<byte>, attr: nat): (f: File)
    requires fd.stat.Some? && LegalName(name)
    ensures FileOk(f) && |f.contents| == fd.Size()
  {
    File(ShortName(name), attr % 256, if fd.Delivers() then fd.data.value else Zeros(fd.Size()))
  }

  /** FSInfo, then FAT32SuperFree. */
  method WriteTail(disk: array<byte>, g: Geometry, free: nat, next: nat) returns (ghost d4: seq<byte>,
                   ghost d5: seq<byte>)
    requires Fits(disk[..], g) && free < U32 && next < U32
    modifies disk
    ensures OnlyIn(old(disk[..]), d4, g.base + g.sector + 488, g.base + g.sector + 492)
    ensures Field(d4, g.base + g.sector + 488, 4) == free
    ensures OnlyIn(d4, d5, g.base + g.sector + 492, g.base + g.sector + 496)
    ensures Field(d5, g.base + g.sector + 492, 4) == next
    ensures SectorsCopied(d5, disk[..], g)
    ensures OnlyIn(old(disk[..]), disk[..], g.base, g.base + 8 * g.sector)
  {
    Endian.Store4(Endian.HOST, disk, g.base + g.sector + 488, free);
    d4 := disk[..];
    Endian.Store4(Endian.HOST, disk, g.base + g.sector + 492, next);
    d5 := disk[..];
    SuperFree(disk, g);
  }

  method Finish(disk: array<byte>, g: Geometry, free: nat, next: nat, ghost d2: seq<byte>,
                ghost files: seq<File>, ghost f: File)
    requires Mixed(d2, g, files, files, files + [f], files + [f])
    requires OnlyIn(d2, disk[..], g.base + 8 * g.sector, g.base + g.dataOff)
    requires TableOk(disk[..], g, 0, files + [f]) && TableOk(disk[..], g, 1, files + [f])
    requires free == Field(d2, g.base + g.sector + 488, 4) - Alloc(g, f) && free < U32
    requires next == NextFree(g, files + [f]) <= g.maxCluster
    modifies disk
    ensures RepInv(disk[..], g, files + [f])
    ensures OnlyIn(old(disk[..]), disk[..], g.base, g.base + 8 * g.sector)
  {
    ghost var d3 := disk[..];
    ghost var d4, d5 := WriteTail(disk, g, free, next);
    FinalStage(d2, d3, d4, d5, disk[..], g, files, f, free);
  }

  /** The part of FAT32Copyin after the checks. */
  method Commit(disk: array<byte>, g: Geometry, slot: nat, first: nat, free: nat, alloc: nat, addr: nat, bytes: nat,
                fd: Fd, name: seq<byte>, attr: nat, ghost files: seq<File>) returns (st: Stage)
    requires RepInv(disk[..], g, files)
    requires LegalName(name) && fd.stat.Some? && fd.Honest()
    requires slot == |files| < Slots(g)
    requires first == NextFree(g, files) && first + alloc <= g.maxCluster && alloc == Alloc(g, NewFile(fd, name, attr))
    requires alloc <= free == Field(disk[..], g.base + g.sector + 488, 4) < U32
    requires addr == ClusterOff(g, first) && addr + bytes == ClusterOff(g, first + alloc) <= g.base + g.size
    requires fd.Size() <= bytes
    modifies disk
    ensures OnlyIn(old(disk[..]), disk[..], g.base, g.base + g.size)
    ensures st.IoFailed? <==> !fd.Delivers()
    ensures st.BoundHit? <==> fd.Delivers() && first == g.maxCluster
    ensures st.IoFailed? ==> RepInv(disk[..], g, files) && Unharmed(old(disk[..]), disk[..], g, files)
    ensures st.Stored? ==> RepInv(disk[..], g, files + [NewFile(fd, name, attr)])
  {
    hide RepInv, DataAt, ClusterOff, NextFree, Alloc, ShortName, OnlyIn, Unharmed;
    RoomForFile(disk[..], g, files);
    ghost var d0 := disk[..];
    var ok := ReadInto(disk, addr, bytes, fd);
    ghost var d1 := disk[..];
    if !ok {
      Abandon(disk, g, d0, files, addr + bytes);
      return IoFailed;
    }
    DataIsThere(d1, g, first, NewFile(fd, name, attr), addr, bytes);
    ok := Record(disk, g, slot, first, free, alloc, name, attr, fd.Size(), d0, files, NewFile(fd, name, attr));
    OnlyInTwice(d0, d1, disk[..], addr, addr + bytes, g.base, g.base + g.size);
    return if ok then Stored else BoundHit;
  }

  lemma RoomForFile(v: seq<byte>, g: Geometry, files: seq<File>)
    requires RepInv(v, g, files)
    ensures Fits(v, g) && g.base <= ClusterOff(g, NextFree(g, files))
  {
    hide BootOk, InfoOk, TableOk, Listed, Vacant, DataOk, BackupOk;
    ThirdCluster(g, NextFree(g, files));
  }

  lemma OnlyInTwice(a: seq<byte>, b: seq<byte>, c: seq<byte>, lo: nat, hi: nat, lo': nat, hi': nat)
    requires OnlyIn(a, b, lo, hi) && OnlyIn(b, c, lo', hi') && lo' <= lo && hi <= hi'
    ensures OnlyIn(a, c, lo', hi')
  {
  }

  /** The error exit after a transfer that failed. */
  method Abandon(disk: array<byte>, g: Geometry, ghost d0: seq<byte>, ghost files: seq<File>, ghost hi: nat)
    requires RepInv(d0, g, files) && OnlyIn(d0, disk[..], ClusterOff(g, NextFree(g, files)), hi)
    requires hi <= g.base + g.size
    requires Fits(disk[..], g)
    modifies disk
    ensures RepInv(disk[..], g, files) && Unharmed(d0, disk[..], g, files)
    ensures OnlyIn(d0, disk[..], g.base, g.base + g.size)
  {
    hide RepInv, ClusterOff, NextFree, OnlyIn;
    ghost var d1 := disk[..];
    SuperFree(disk, g);
    FailedKeeps(d0, d1, disk[..], g, files, hi);
    FailedUnharmed(d0, d1, disk[..], g, files, hi);
  }

  lemma FailedUnharmed(v: seq<byte>, u: seq<byte>, w: seq<byte>, g: Geometry, files: seq<File>, hi: nat)
    requires RepInv(v, g, files) && OnlyIn(v, u, ClusterOff(g, NextFree(g, files)), hi) && hi <= g.base + g.size
    requires Fits(u, g) && SectorsCopied(u, w, g)
    ensures Unharmed(v, w, g, files) && OnlyIn(v, w, g.base, g.base + g.size)
  {
    hide BootOk, InfoOk, TableOk, Listed, Vacant, DataOk, BackupOk, CopiedTo;
    ThirdCluster(g, NextFree(g, files));
  }

  lemma DataIsThere(v: seq<byte>, g: Geometry, c: nat, f: File, addr: nat, bytes: nat)
    requires Fits(v, g) && c >= 2 && addr == ClusterOff(g, c)
    requires addr + bytes == ClusterOff(g, c + Alloc(g, f)) <= g.base + g.size
    requires |f.contents| <= bytes && v[addr..addr + bytes] == f.contents + Zeros(bytes - |f.contents|)
    ensures DataAt(v, g, c, f)
  {
  }

  method AddEntry(disk: array<byte>, at: nat, name: seq<byte>, attr: nat, first: nat, size: nat, ghost f: File)
    requires LegalName(name) && at + 32 <= disk.Length
    requires FileOk(f) && f.name == ShortName(name) && f.attr == attr % 256 && size == |f.contents|
    modifies disk
    ensures OnlyIn(old(disk[..]), disk[..], at, at + 32)
    ensures disk[..][at..at + 32] == DirEntry(f, first)
  {
    WriteDirEntry(disk, at, name, attr, first, size);
  }

  lemma FreeCountKept(d0: seq<byte>, d1: seq<byte>, d2: seq<byte>, g: Geometry, c: nat, hi: nat, slot: nat)
    requires Fits(d0, g) && c >= 3
    requires OnlyIn(d0, d1, ClusterOff(g, c), hi) && OnlyIn(d1, d2, SlotOff(g, slot), SlotOff(g, slot) + 32)
    ensures |d2| == |d0| && Field(d2, g.base + g.sector + 488, 4) == Field(d0, g.base + g.sector + 488, 4)
  {
    ThirdCluster(g, c);
    FieldFrame(d0, d1, ClusterOff(g, c), hi, g.base + g.sector + 488, 4);
    FieldFrame(d1, d2, SlotOff(g, slot), SlotOff(g, slot) + 32, g.base + g.sector + 488, 4);
  }

  /** Directory entry, tables, FSInfo and backups of a file whose data is in place. */
  method Record(disk: array<byte>, g: Geometry, slot: nat, first: nat, free: nat, alloc: nat,
                name: seq<byte>, attr: nat, size: nat, ghost d0: seq<byte>, ghost files: seq<File>, ghost f: File)
    returns (ok: bool)
    requires RepInv(d0, g, files) && FileOk(f) && slot == |files| < Slots(g)
    requires LegalName(name) && f.name == ShortName(name) && f.attr == attr % 256 && size == |f.contents|
    requires first == NextFree(g, files) && first + alloc <= g.maxCluster && alloc == Alloc(g, f)
    requires alloc <= free == Field(d0, g.base + g.sector + 488, 4) < U32
    requires OnlyIn(d0, disk[..], ClusterOff(g, first), ClusterOff(g, first + alloc)) && DataAt(disk[..], g, first, f)
    modifies disk
    ensures OnlyIn(old(disk[..]), disk[..], g.base, g.base + g.size)
    ensures ok <==> first < g.maxCluster
    ensures ok ==> RepInv(disk[..], g, files + [f])
  {
    hide FatImage.BootOk, FatImage.InfoOk, FatImage.TableOk, FatImage.Listed, FatImage.Vacant;
    hide FatImage.DataOk, FatImage.BackupOk;
    hide FatImage.DataAt, FatLayout.ClusterOff, FatImage.NextFree, FatImage.Alloc, FatSpec.ShortName, FatImage.DirEntry;
    ghost var d1 := disk[..];
    AddEntry(disk, SlotOff(g, slot), name, attr, first, size, f);
    ghost var d2 := disk[..];
    EntryStage(d0, d1, d2, g, files, f);
    FreeCountKept(d0, d1, d2, g, first, ClusterOff(g, first + alloc), slot);
    Extended(g, files, f);
    var next;
    ok, next := WriteChain(disk, g, first, alloc, files, f);
    if ok {
      Finish(disk, g, free - alloc, next, d2, files, f);
    }
  }

  // ----- the whole call -----

  /** The root directory is the one-cluster chain at cluster 2. */
  lemma RootChain(v: seq<byte>, g: Geometry, files: seq<File>)
    requires Fits(v, g) && TableOk(v, g, 0, files)
    ensures Walk(v, g, 2, g.entries) == Some([2])
  {
    LinkPrefix(g, files, 0, 2);
    assert Ent(v, g, 0, 2) == Link(g, files, 2);
  }

  lemma NamedSlot(v: seq<byte>, g: Geometry, files: seq<File>, i: nat)
    requires Fits(v, g) && Listed(v, g, files) && i < |files|
    ensures |files| <= Slots(g) && SlotOff(g, 0) + 32 * i < |v| && NameByte(v, SlotOff(g, 0), i) != 0
  {
    ListedAt(v, g, files, i);
    NamedEntry(files[i], NextFree(g, files[..i]));
    assert Slot(v, g, i)[0] == v[SlotOff(g, i)];
  }

  lemma VacantSlot(v: seq<byte>, g: Geometry, n: nat)
    requires Fits(v, g) && Vacant(v, g, n) && n < Slots(g)
    ensures SlotOff(g, 0) + 32 * n < |v| && NameByte(v, SlotOff(g, 0), n) == 0
  {
    assert Slot(v, g, n)[0] == v[SlotOff(g, n)];
  }

  /** The first free slot is the one after the files. */
  lemma SlotIsNext(v: seq<byte>, g: Geometry, files: seq<File>, next: nat)
    requires Fits(v, g) && Listed(v, g, files) && Vacant(v, g, |files|)
    requires IsFreeSlot(v, SlotOff(g, 0), next, Slots(g))
    ensures next == |files| <= Slots(g)
  {
    ListedFits(v, g, files);
    hide FatImage.Listed, FatImage.NextFree, FatLayout.ClusterOff, FatImage.Slot, FatImage.Slots;
    hide FatImage.SlotOff, NameByte;
    forall i | 0 <= i < |files|
      ensures SlotOff(g, 0) + 32 * i < |v| && NameByte(v, SlotOff(g, 0), i) != 0
    {
      NamedSlot(v, g, files, i);
    }
    if |files| < Slots(g) {
      VacantSlot(v, g, |files|);
    }
  }

  method Reject(disk: array<byte>, g: Geometry, ghost files: seq<File>)
    requires RepInv(disk[..], g, files)
    modifies disk
    ensures RepInv(disk[..], g, files) && Unharmed(old(disk[..]), disk[..], g, files)
    ensures OnlyIn(old(disk[..]), disk[..], g.base, g.base + g.size)
  {
    ghost var d := disk[..];
    SuperFree(disk, g);
    FailedKeeps(d, d, disk[..], g, files, 0);
  }

  lemma Affordable(v: seq<byte>, g: Geometry, files: seq<File>, alloc: nat)
    requires Fits(v, g) && InfoOk(v, g, files) && NextFree(g, files) + alloc <= g.maxCluster
    ensures alloc <= Field(v, g.base + g.sector + 488, 4) < U32
  {
  }

  lemma FileSpace(g: Geometry, files: seq<File>, size: nat)
    requires Placed(g) && NextFree(g, files) <= g.maxCluster && size <= MaxFileSize(g, files)
    ensures (size + g.clusterBytes - 1) / g.clusterBytes == CDiv(size, g.clusterBytes)
    ensures NextFree(g, files) + CDiv(size, g.clusterBytes) <= g.maxCluster
    ensures size <= CDiv(size, g.clusterBytes) * g.clusterBytes
    ensures ClusterOff(g, NextFree(g, files)) + CDiv(size, g.clusterBytes) * g.clusterBytes
         == ClusterOff(g, NextFree(g, files) + CDiv(size, g.clusterBytes)) <= g.base + g.size
  {
    CDivIsMacro(size, g.clusterBytes);
    CDivBounds(size, g.clusterBytes);
    RoomIff(g, files, size);
    ClusterOffAdd(g, NextFree(g, files), CDiv(size, g.clusterBytes));
    ClusterInside(g, NextFree(g, files) + CDiv(size, g.clusterBytes));
  }

  /** The start sector and its address. */
  method Locate(g: Geometry, next: nat) returns (ret: nat, addr: nat)
    requires Sound(g) && 3 <= next <= g.maxCluster
    ensures ret == SectorOf(g, next) && addr == ClusterOff(g, next)
  {
    hide FatLayout.ClusterOff;
    DivUnique(g.clusterBytes, g.sector, g.spc);
    ret := StartOf(next - 2, g.clusterBytes / g.sector, 8 + 2 * g.fatSectors);
    SectorIsCluster(g, next);
    addr := GetSector(g, ret).value;
  }

  function StartOf(n: nat, spc: nat, data: nat): nat {
    n * spc + data
  }

  /** The superblock and the two FSInfo counters. */
  method LoadSuper(disk: array<byte>, base: nat, ghost g: Geometry, ghost files: seq<File>)
    returns (sb: Geometry, slot: nat, numRoot: nat, next: nat, free: nat)
    requires Sound(g) && base == g.base && RepInv(disk[..], g, files)
    ensures sb == g && slot == |files| <= numRoot == Slots(g)
    ensures next == NextFree(g, files) && free == Field(disk[..], g.base + g.sector + 488, 4)
  {
    RootChain(disk[..], g, files);
    ghost var d := disk[..];
    sb, slot, numRoot := SuperInit(disk, base, g, g.entries, [2], g.clusterBytes);
    assert disk[..] == d;
    SlotIsNext(d, g, files, slot);
    next := Endian.Load(Endian.HOST, disk, sb.base + sb.sector + 492, 4);
    free := Endian.Load(Endian.HOST, disk, sb.base + sb.sector + 488, 4);
  }

  /**
   * FAT32Copyin on the volume that starts at byte `base` of the disk. What it
   * does to the bytes means exactly what `Copied` says of the file list; a call
   * that returns 0 disturbs nothing but free clusters and the backup sectors.
   */
  method CopyIn(disk: array<byte>, base: nat, fd: Fd, name: seq<byte>, attr: nat, ghost g: Geometry,
                ghost files: seq<File>)
    returns (out: Outcome)
    requires Sound(g) && base == g.base && RepInv(disk[..], g, files)
    requires LegalName(name) && fd.Honest()
    modifies disk
    ensures out == Copied(g, files, fd, name, attr).0
    ensures !out.Aborted? ==> RepInv(disk[..], g, Copied(g, files, fd, name, attr).1)
    ensures OnlyIn(old(disk[..]), disk[..], g.base, g.base + g.size)
    ensures out == Returned(0) ==> Unharmed(old(disk[..]), disk[..], g, files)
  {
    hide FatImage.BootOk, FatImage.InfoOk, FatImage.TableOk, FatImage.Listed, FatImage.Vacant;
    hide FatImage.DataOk, FatImage.BackupOk;
    hide FatSpec.ShortName, FatLayout.ClusterOff, FatSpec.StartSector;
    if fd.stat.None? {
      return Returned(0);
    }
    var sb, slot, numRoot, next, free := LoadSuper(disk, base, g, files);
    if sb.maxCluster < next {
      return Aborted;
    }
    var maxFileSize := sb.clusterBytes * (sb.maxCluster - next);
    StartsPastData(g, files);
    if maxFileSize < fd.Size() || slot == numRoot {
      Reject(disk, sb, files);
      return Returned(0);
    }
    out := Accept(disk, sb, slot, next, free, fd, name, attr, files);
  }

  /** A call whose file fits and for which a slot is free. */
  method Accept(disk: array<byte>, g: Geometry, slot: nat, next: nat, free: nat, fd: Fd, name: seq<byte>, attr: nat,
                ghost files: seq<File>) returns (out: Outcome)
    requires Sound(g) && RepInv(disk[..], g, files) && LegalName(name) && fd.stat.Some? && fd.Honest()
    requires slot == |files| < Slots(g) && next == NextFree(g, files) <= g.maxCluster
    requires free == Field(disk[..], g.base + g.sector + 488, 4) && fd.Size() <= MaxFileSize(g, files)
    modifies disk
    ensures OnlyIn(old(disk[..]), disk[..], g.base, g.base + g.size)
    ensures out == if !fd.Delivers() then Returned(0) else if next == g.maxCluster then Aborted
                   else Returned(StartSector(g, files))
    ensures !fd.Delivers() ==> RepInv(disk[..], g, files) && Unharmed(old(disk[..]), disk[..], g, files)
    ensures out.Returned? && fd.Delivers() ==>
      RepInv(disk[..], g, files + [File(ShortName(name), attr % 256, fd.data.value)])
  {
    hide FatImage.BootOk, FatImage.InfoOk, FatImage.TableOk, FatImage.Listed, FatImage.Vacant;
    hide FatImage.DataOk, FatImage.BackupOk;
    hide FatSpec.ShortName, FatLayout.ClusterOff, FatLayout.CDiv, FatSpec.MaxFileSize;
    var alloc := (fd.Size() + g.clusterBytes - 1) / g.clusterBytes;
    FileSpace(g, files, fd.Size());
    Affordable(disk[..], g, files, alloc);
    var ret, addr := Locate(g, next);
    var st := Commit(disk, g, slot, next, free, alloc, addr, alloc * g.clusterBytes, fd, name, attr, files);
    match st
    case IoFailed => return Returned(0);
    case BoundHit => return Aborted;
    case Stored => return Returned(ret);
  }
}
