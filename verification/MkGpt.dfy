/** The image builder as a whole (gpt/mkgpt.c): a partition table, a FAT volume
    in one of its partitions, files in that volume, and the boot code. */
module MkGpt {
  import opened Bytes
  import Memory
  import opened Gpt
  import opened GptCheck
  import opened FatLayout
  import FatBoot
  import opened FatSpec
  import FatFormat
  import FatReader
  import FatRun
  import FatImage
  import opened BootRead

  /** What a sector range of the disk holds is the same before and after. */
  ghost predicate SameSectors(d: seq<byte>, e: seq<byte>, start: nat, volume: nat) {
    && BLOCK * (start + volume) <= |d| == |e|
    && d[BLOCK * start..BLOCK * (start + volume)] == e[BLOCK * start..BLOCK * (start + volume)]
  }

  /** Every served partition but `p` is the same before and after. */
  ghost predicate OthersSame(d: seq<byte>, e: seq<byte>, reqs: seq<Request>, starts: seq<nat>, served: nat, p: nat) {
    && served <= |reqs| == |starts|
    && forall q :: 0 <= q < served && q != p ==> SameSectors(d, e, starts[q], reqs[q].volume)
  }

  lemma OthersKept(d: seq<byte>, e: seq<byte>, nBlock: nat, reqs: seq<Request>, starts: seq<nat>, served: nat, p: nat)
    requires SetApart(nBlock, reqs, starts, served, p) && BLOCK * nBlock <= |d|
    requires OnlyIn(d, e, BLOCK * starts[p], BLOCK * (starts[p] + reqs[p].volume))
    ensures OthersSame(d, e, reqs, starts, served, p)
  {
    forall q | 0 <= q < served && q != p
      ensures SameSectors(d, e, starts[q], reqs[q].volume)
    {
      var lo, hi := BLOCK * starts[p], BLOCK * (starts[p] + reqs[p].volume);
      OnlyInSlice(d, e, lo, hi, BLOCK * starts[q], BLOCK * (starts[q] + reqs[q].volume));
    }
  }

  /** Formatting partition `p` and any run of copies into it keep the table and every other partition. */
  method FillPartition(disk: array<byte>, start: nat, cfg: Config, ops: seq<Op>,
                       ghost nBlock: nat, ghost reqs: seq<Request>, ghost starts: seq<nat>, ghost served: nat,
                       ghost id: seq<byte>, ghost p: nat)
    returns (r: FatFormat.FormatResult, outs: seq<Outcome>)
    requires BLOCK * nBlock <= disk.Length && TableShown(disk[..], nBlock, reqs, starts, served, id)
    requires SetApart(nBlock, reqs, starts, served, p)
    requires start == starts[p] && cfg.nSector == reqs[p].volume && cfg.bytesPerSector == 512
    requires Addressable(cfg) && Legal(ops) && FatRun.AllHonest(ops)
    modifies disk
    ensures FatRun.Built(disk[..], BLOCK * start, cfg, ops, r, outs)
    ensures TableShown(disk[..], nBlock, reqs, starts, served, id)
    ensures OthersSame(old(disk[..]), disk[..], reqs, starts, served, p)
    ensures OnlyIn(old(disk[..]), disk[..], BLOCK * start, BLOCK * (start + cfg.nSector))
  {
    hide TableShown, FatRun.Built;
    ghost var d := disk[..];
    r, outs := FatRun.Build(disk, BLOCK * start, cfg, ops);
    TableKept(d, disk[..], nBlock, reqs, starts, served, id, BLOCK * start, BLOCK * (start + cfg.nSector));
    OthersKept(d, disk[..], nBlock, reqs, starts, served, p);
  }

  // ----- mkgpt's own image -----

  const NBLOCK: nat := 524288
  const ESP: seq<byte> :=
    [0x28, 0x73, 0x2a, 0xc1, 0x1f, 0xf8, 0xd2, 0x11, 0xba, 0x4b, 0x00, 0xa0, 0xc9, 0x3e, 0xc9, 0x3b]
  const DISK_ID: seq<byte> :=
    [0x40, 0x8d, 0x8d, 0x9e, 0xd1, 0xe4, 0x47, 0x35, 0xad, 0x9e, 0x86, 0x52, 0x3f, 0x5e, 0x2f, 0x4a]
  const BOOT_NAME: seq<byte> := [66, 111, 111, 116, 32, 80, 97, 114, 116, 105, 116, 105, 111, 110]
  const FS_NAME: seq<byte> := [70, 105, 108, 101, 115, 121, 115, 116, 101, 109]

  function Requests(): seq<Request> {
    [Request(ESP, DISK_ID, BOOT_NAME, 262140), Request(ESP, DISK_ID, FS_NAME, NBLOCK - 5 - 262140)]
  }

  /** Both partitions are served, at sectors 3 and 262143. */
  lemma BothServed(starts: seq<nat>, served: nat)
    requires Carvable(NBLOCK, Requests()) && LongestPrefix(Requests(), Available(NBLOCK, Requests()), served)
    requires Packed(Requests(), starts, FirstSector(Requests()), served)
    ensures served == 2 && starts == [3, 262143]
  {
    var r := Requests();
    assert Volume(r, 1) == 262140;
    assert Volume(r, 2) == NBLOCK - 5;
  }

  /**
   * The image mkgpt writes: a table of two partitions that verifies from
   * either header, a FAT volume at sector 3 in which a reader finds the files
   * of the run, and the boot code in front of both.
   */
  method Make(disk: array<byte>, code: seq<byte>, ops: seq<Op>) returns (r: FatFormat.FormatResult, outs: seq<Outcome>)
    requires disk.Length == BLOCK * NBLOCK && |code| <= 440 && Legal(ops) && FatRun.AllHonest(ops)
    modifies disk
    ensures TableShown(disk[..], NBLOCK, Requests(), [3, 262143], 2, DISK_ID)
    ensures FatRun.Built(disk[..], BLOCK * 3, MKGPT, ops, r, outs)
    ensures disk[..][..|code|] == code
  {
    hide TableShown, FatRun.Built, Carved, Gpt.Volume, ClearsFit, LongestPrefix, OthersSame;
    var starts := new nat[2](_ => 0);
    var reqs := Requests();
    PositiveVolumesFit(NBLOCK, reqs);
    var table;
    ghost var h;
    table, h := Generate(disk, NBLOCK, DISK_ID, reqs, starts);
    CarvedMkgpt(disk[..], starts[..], table.served, h);
    r, outs := FillPartition(disk, starts[0], MKGPT, ops, NBLOCK, reqs, [3, 262143], 2, DISK_ID, 0);
    ghost var d := disk[..];
    WriteCode(disk, code);
    TableKept(d, disk[..], NBLOCK, reqs, [3, 262143], 2, DISK_ID, 0, 440);
    FatRun.BuiltFrame(d, disk[..], BLOCK * 3, MKGPT, ops, r, outs, 0, 440);
  }

  /** The two partitions of mkgpt's disk, as a reader decodes them. */
  lemma MkgptPartitions(d: seq<byte>)
    requires TableShown(d, NBLOCK, Requests(), [3, 262143], 2, DISK_ID)
    ensures |d| >= 1280
    ensures var p, q := Decode(d[1024..1152]), Decode(d[1152..1280]);
      && p.first == 3 && p.last == 262142 && p.name == FatBoot.Ascii("Boot Partition")
      && q.first == 262143 && q.last == 524285 && q.name == FatBoot.Ascii("Filesystem")
      && p.attrs == 5 && q.attrs == 5 && p.partType == ESP == q.partType && p.partId == DISK_ID == q.partId
  {
    hide Decode, Vouches, HeadersAgree, MbrTells;
    assert Decode(d[EntryAt(0)..EntryAt(0) + 128]) == Served(Requests()[0], 3);
    assert Decode(d[EntryAt(1)..EntryAt(1) + 128]) == Served(Requests()[1], 262143);
    assert BOOT_NAME == FatBoot.Ascii("Boot Partition") && FS_NAME == FatBoot.Ascii("Filesystem");
  }

  /** Boot code goes to the first 440 bytes at most. */
  method WriteCode(disk: array<byte>, code: seq<byte>)
    requires |code| <= 440 <= disk.Length
    modifies disk
    ensures OnlyIn(old(disk[..]), disk[..], 0, 440) && disk[..][..|code|] == code
  {
    Memory.Store(disk, 0, code);
  }

  lemma CarvedMkgpt(d: seq<byte>, starts: seq<nat>, served: nat, h: Header)
    requires Carvable(NBLOCK, Requests()) && RequestsOk(Requests()) && Carved(d, NBLOCK, Requests(), starts, served, h)
    ensures served == 2 && starts == [3, 262143]
    ensures TableShown(d, NBLOCK, Requests(), starts, 2, h.diskId) && SetApart(NBLOCK, Requests(), starts, 2, 0)
  {
    hide EntriesOk, HeadersWritten, Mbr, TableShown;
    BothServed(starts, served);
    CarvedShown(d, NBLOCK, Requests(), starts, served, h);
    PartitionApart(d, NBLOCK, Requests(), starts, served, h, 0);
  }

  /**
   * The sectors the boot code has compiled in: whatever files follow, the
   * first lies at sector 531 of mkgpt's disk, and the second at 539 exactly
   * when the first fits one cluster.
   */
  lemma BootSectors(d: seq<byte>, files: seq<FatImage.File>)
    requires FatRun.Shows(d, Layout(MKGPT, BLOCK * 3), files) && |files| >= 2
    ensures HeldAt(d, 531, files[0].contents)
    ensures |files[0].contents| <= 4096 ==> HeldAt(d, 539, files[1].contents)
    ensures 3 + FileSector(Layout(MKGPT, BLOCK * 3), files, 1) == 539 <==> |files[0].contents| <= 4096
  {
    hide FatImage.RepInv, FatReader.Mount, FatReader.ListFrom, FatLayout.Placed, FatLayout.Sectored;
    var g := Layout(MKGPT, BLOCK * 3);
    LayoutIsSound(MKGPT, BLOCK * 3);
    MkgptSectors(BLOCK * 3, files[0]);
    assert files[..0] == [] && files[..1] == [files[0]];
    FileHeld(d, g, files, 0, 3, 531);
    if |files[0].contents| <= 4096 {
      FileHeld(d, g, files, 1, 3, 539);
    }
  }

  lemma FileHeld(d: seq<byte>, g: Geometry, files: seq<FatImage.File>, i: nat, part: nat, lba: nat)
    requires FatImage.RepInv(d, g, files) && Sectored(g) && i < |files|
    requires g.base == BLOCK * part && g.sector == BLOCK && part + FileSector(g, files, i) == lba
    ensures HeldAt(d, lba, files[i].contents)
  {
    hide FatImage.BootOk, FatImage.InfoOk, FatImage.TableOk, FatImage.Listed, FatImage.Vacant;
    hide FatImage.BackupOk, FatImage.DataOk;
    FileBytes(d, g, files, i);
  }

  /** The bytes `s` start at sector `lba`. */
  ghost predicate HeldAt(d: seq<byte>, lba: nat, s: seq<byte>) {
    BLOCK * lba + |s| <= |d| && d[BLOCK * lba..BLOCK * lba + |s|] == s
  }
}
