/** From "file copied in" to "bytes loaded at boot": the FAT volume the image
    builder writes, seen through the loader that only knows start sectors. */
module BootRead {
  import opened Wrappers
  import opened Bytes
  import opened FatLayout
  import opened FatImage
  import opened FatReader
  import opened FatSuper
  import opened FatSpec
  import opened FatFormat
  import opened FatRun
  import Boot

  /** The first sector of file `i`, counted from the start of the volume: what its copy returned. */
  function FileSector(g: Geometry, files: seq<File>, i: nat): nat
    requires g.clusterBytes > 0 && i < |files|
  {
    StartSector(g, files[..i])
  }

  /** The byte at which a sector of the volume starts. */
  function ByteOf(g: Geometry, sector: nat): nat {
    g.base + sector * g.sector
  }

  lemma FileStart(g: Geometry, files: seq<File>, i: nat)
    requires Sound(g) && i < |files|
    ensures ByteOf(g, FileSector(g, files, i)) == ClusterOff(g, NextFree(g, files[..i]))
  {
    SectorIsCluster(g, NextFree(g, files[..i]));
  }

  /** The contents of file `i` lie contiguously from its first sector on. */
  lemma FileBytes(d: seq<byte>, g: Geometry, files: seq<File>, i: nat)
    requires Fits(d, g) && DataOk(d, g, files) && Sectored(g) && i < |files|
    ensures var o := ByteOf(g, FileSector(g, files, i));
      o + |files[i].contents| <= |d| && d[o..o + |files[i].contents|] == files[i].contents
  {
    var c, f := NextFree(g, files[..i]), files[i];
    DataAtIndex(d, g, files, i);
    FileStart(g, files, i);
    DataPrefix(d, g, c, f);
  }

  lemma DataPrefix(d: seq<byte>, g: Geometry, c: nat, f: File)
    requires Fits(d, g) && c >= 2 && DataAt(d, g, c, f)
    ensures ClusterOff(g, c) + |f.contents| <= |d|
    ensures d[ClusterOff(g, c)..ClusterOff(g, c) + |f.contents|] == f.contents
  {
    var o, e := ClusterOff(g, c), ClusterOff(g, c + Alloc(g, f));
    SliceOfSlice(d, o, e, 0, |f.contents|);
    assert (f.contents + Zeros(e - o - |f.contents|))[0..|f.contents|] == f.contents;
  }

  /** The sectors that hold a file end inside the volume. */
  lemma FileSectorsInside(d: seq<byte>, g: Geometry, files: seq<File>, i: nat, n: nat)
    requires Fits(d, g) && DataOk(d, g, files) && Sectored(g) && i < |files| && g.sector == 512
    requires 0 < n <= |files[i].contents|
    ensures g.base + 512 * (FileSector(g, files, i) + (n - 1) / 512) + 512 <= g.base + g.size
  {
    var c, f := NextFree(g, files[..i]), files[i];
    DataAtIndex(d, g, files, i);
    FileStart(g, files, i);
    DataSectors(d, g, c, f, n);
  }

  lemma DataSectors(d: seq<byte>, g: Geometry, c: nat, f: File, n: nat)
    requires Fits(d, g) && c >= 2 && DataAt(d, g, c, f) && g.clusterBytes == g.spc * 512 && 0 < n <= |f.contents|
    ensures ClusterOff(g, c) + 512 * ((n - 1) / 512) + 512 <= g.base + g.size
  {
    ClusterOffAdd(g, c, Alloc(g, f));
    WholeSectors(Alloc(g, f), g.spc, n);
  }

  lemma WholeSectors(k: nat, spc: nat, n: nat)
    requires 0 < n <= k * (spc * 512)
    ensures 512 * ((n - 1) / 512) + 512 <= k * (spc * 512)
  {
    var m := k * spc;
    assert k * (spc * 512) == 512 * m;
  }

  /**
   * Boot read equals file: the loader, given the partition's first sector plus
   * the sector the copy returned, delivers exactly the requested slice of the
   * file, the same bytes a reader finds by following the directory and the table.
   */
  method ReadAtBoot(mem: array<byte>, addr: nat, disk: seq<byte>, part: nat, off: nat, n: nat,
                    sector: nat, ghost g: Geometry, ghost files: seq<File>, ghost i: nat)
    requires RepInv(disk, g, files) && Sound(g) && i < |files| && g.sector == 512 && g.base == 512 * part
    requires sector == FileSector(g, files, i) && off + n <= |files[i].contents|
    requires addr + n <= mem.Length && Boot.SECTOR_DATA_START + Boot.SECTSIZE <= mem.Length
    requires Boot.Apart(addr, n, Boot.SECTOR_DATA_START, Boot.SECTSIZE)
    modifies mem
    ensures mem[..][addr..addr + n] == files[i].contents[off..off + n]
    ensures i < Slots(g) && ReadEntry(disk, g, Slot(disk, g, i)) == Some(files[i])
    ensures forall k :: 0 <= k < mem.Length ==>
      Boot.Within(k, addr, n) || Boot.Within(k, Boot.SECTOR_DATA_START, Boot.SECTSIZE) || mem[k] == old(mem[k])
  {
    hide FatImage.RepInv, FatLayout.Sectored, FatLayout.Placed;
    ReadableAtBoot(disk, g, files, i, part, off, n);
    Boot.ReadFile(mem, addr, disk, part + sector, off, n);
    ghost var o := 512 * (part + sector) + off;
    assert mem[..][addr..addr + n] == disk[o..o + n];
  }

  lemma ReadableAtBoot(d: seq<byte>, g: Geometry, files: seq<File>, i: nat, part: nat, off: nat, n: nat)
    requires RepInv(d, g, files) && Sound(g) && i < |files| && g.sector == 512 && g.base == 512 * part
    requires off + n <= |files[i].contents|
    ensures Boot.OnDisk(d, part + FileSector(g, files, i), off, n)
    ensures var o := 512 * (part + FileSector(g, files, i)) + off;
      o + n <= |d| && d[o..o + n] == files[i].contents[off..off + n]
    ensures i < Slots(g) && ReadEntry(d, g, Slot(d, g, i)) == Some(files[i])
  {
    hide FatImage.BootOk, FatImage.InfoOk, FatImage.TableOk, FatImage.Listed, FatImage.Vacant;
    hide FatImage.BackupOk, FatImage.DataOk;
    hide FatLayout.ClusterOff, FileSector;
    FileBytes(d, g, files, i);
    var o, f := ByteOf(g, FileSector(g, files, i)), files[i];
    SliceOfSlice(d, o, o + |f.contents|, off, off + n);
    ReadsBack(d, g, files, i);
    if off + n > 0 {
      FileSectorsInside(d, g, files, i, off + n);
    }
  }

  // ----- from what a copy returned -----

  /** A run only ever adds files behind those that are there. */
  lemma {:induction false} AfterExtends(g: Geometry, files: seq<File>, ops: seq<Op>)
    requires g.clusterBytes > 0 && 8 <= g.dataSector && Legal(ops)
    ensures files <= After(g, files, ops)
    decreases |ops|
  {
    if ops != [] {
      AppendsOne(g, files, ops[0].fd, ops[0].name, ops[0].attr);
      AfterExtends(g, Copied(g, files, ops[0].fd, ops[0].name, ops[0].attr).1, ops[1..]);
    }
  }

  /** The file that call `op` stores. */
  function StoredFile(op: Op): File
    requires LegalName(op.name) && op.fd.data.Some?
  {
    File(ShortName(op.name), op.attr % 256, op.fd.data.value)
  }

  /** Call `k` of a run succeeded with sector `s`. */
  ghost predicate Succeeded(outs: seq<Outcome>, k: nat, s: nat) {
    k < |outs| && outs[k] == Returned(s) && s > 0
  }

  /**
   * A sector returned during a run stays the start of that call's file: in
   * the final list some file has the call's name, attributes and data, and its
   * first sector is what the call returned.
   */
  lemma {:induction false} ReturnedIsStart(g: Geometry, files: seq<File>, ops: seq<Op>, k: nat, s: nat) returns (i: nat)
    requires g.clusterBytes > 0 && 8 <= g.dataSector && Legal(ops)
    requires !Dies(g, files, ops) && Succeeded(Outcomes(g, files, ops), k, s)
    ensures k < |ops| && ops[k].fd.data.Some? && i < |After(g, files, ops)|
    ensures After(g, files, ops)[i] == StoredFile(ops[k]) && FileSector(g, After(g, files, ops), i) == s
    decreases |ops|
  {
    hide FatSpec.Copied, FatSpec.StartSector;
    var (out, files') := Copied(g, files, ops[0].fd, ops[0].name, ops[0].attr);
    AppendsOne(g, files, ops[0].fd, ops[0].name, ops[0].attr);
    if k == 0 {
      i := |files|;
      AfterExtends(g, files', ops[1..]);
      assert After(g, files, ops)[..i] == files;
    } else {
      i := ReturnedIsStart(g, files', ops[1..], k - 1, s);
    }
  }

  /**
   * Boot read equals file, from what a copy returned: after format and any run,
   * for every call that returned a sector, the loader started at the
   * partition's first sector plus that number delivers exactly the requested
   * slice of the data the call was given.
   */
  method ReadReturned(mem: array<byte>, addr: nat, disk: seq<byte>, part: nat, sector: nat, off: nat, n: nat,
                      ghost cfg: Config, ghost ops: seq<Op>, ghost r: FormatResult, ghost outs: seq<Outcome>,
                      ghost k: nat)
    requires Built(disk, 512 * part, cfg, ops, r, outs) && r.Formatted? && Legal(ops) && cfg.bytesPerSector == 512
    requires !Dies(Layout(cfg, 512 * part), [], ops) && Succeeded(outs, k, sector)
    requires k < |ops| && ops[k].fd.data.Some? && off + n <= |ops[k].fd.data.value|
    requires addr + n <= mem.Length && Boot.SECTOR_DATA_START + Boot.SECTSIZE <= mem.Length
    requires Boot.Apart(addr, n, Boot.SECTOR_DATA_START, Boot.SECTSIZE)
    modifies mem
    ensures mem[..][addr..addr + n] == ops[k].fd.data.value[off..off + n]
    ensures forall x :: 0 <= x < mem.Length ==>
      Boot.Within(x, addr, n) || Boot.Within(x, Boot.SECTOR_DATA_START, Boot.SECTSIZE) || mem[x] == old(mem[x])
  {
    hide FatImage.RepInv, FatReader.Mount, FatReader.ListFrom, FatLayout.Placed, FatSpec.Copied;
    ghost var g := Layout(cfg, 512 * part);
    LayoutIsSound(cfg, 512 * part);
    ghost var i := ReturnedIsStart(g, [], ops, k, sector);
    ReadAtBoot(mem, addr, disk, part, off, n, sector, g, After(g, [], ops), i);
  }

  // ----- the constants the boot code is built with -----

  const MKGPT: Config := Config(262140, 512, 8, true)

  /** mkgpt's boot partition: 256 sectors per table, data from sector 520 on. */
  lemma MkgptLayout(base: nat)
    ensures Formats(MKGPT)
    ensures var g := Layout(MKGPT, base);
      g.fatSectors == 256 && g.dataSector == 520 && g.spc == 8 && g.clusterBytes == 4096
  {
    CDivIsMacro(32767, 128);
  }

  /**
   * The first file starts at sector 528 of the partition and, behind a first
   * file of at most one cluster and no other, the second at sector 536: with the
   * partition at sector 3 these are the numbers 531 and 539 of bootloader/mbr.c.
   */
  lemma MkgptSectors(base: nat, f: File)
    ensures Formats(MKGPT)
    ensures var g := Layout(MKGPT, base);
      3 + StartSector(g, []) == 531 && (3 + StartSector(g, [f]) == 539 <==> |f.contents| <= 4096)
  {
    MkgptLayout(base);
    var g := Layout(MKGPT, base);
    assert Init([f]) == [] && Last([f]) == f;
    FitsIff(|f.contents|, 4096, 1);
  }

  /** A file of 4 GiB and one byte is accepted by mkgpt's volume, and one byte of it is stored. */
  lemma HugeFileTruncated(base: nat, contents: seq<byte>, name: seq<byte>, attr: nat)
    requires |contents| == U32 + 1 && LegalName(name)
    ensures Formats(MKGPT)
    ensures var fd := Fd(Some(|contents|), true, Some(contents[..|contents| % U32]));
      var (out, files) := Copied(Layout(MKGPT, base), [], fd, name, attr);
      out == Returned(528) && |files| == 1 && files[0].contents == contents[..1] != contents
  {
    MkgptLayout(base);
    MkgptSectors(base, File([], 0, []));
    var g := Layout(MKGPT, base);
    assert g.maxCluster == 32702;
    assert |contents| % U32 == 1;
  }
}
