/** What the bytes of a FAT32 volume mean: the representation invariant that
    every run of createFAT32 and FAT32Copyin keeps, and a reader that knows
    nothing of the allocator and follows directory entries and table chains. */
module FatImage {
  import opened Bytes
  import opened FatLayout
  import opened FatBoot

  const EOC: nat := 0xFFFF_FFFF

  /** A file of the root directory: its 11-byte name field, attributes and contents. */
  datatype File = File(name: seq<byte>, attr: byte, contents: seq<byte>)

  predicate FileOk(f: File) {
    |f.name| == 11 && f.name[0] != 0 && |f.contents| < U32
  }

  // ----- the allocator, as a function of the file list -----

  /** Clusters that hold data of `f`. */
  function Alloc(g: Geometry, f: File): nat
    requires g.clusterBytes > 0
  {
    CDiv(|f.contents|, g.clusterBytes)
  }

  /** Cluster numbers `f` consumes: an empty file still takes one. */
  function Span(g: Geometry, f: File): (n: nat)
    requires g.clusterBytes > 0
    ensures n >= 1
  {
    if Alloc(g, f) == 0 then 1 else Alloc(g, f)
  }

  function Init(files: seq<File>): seq<File>
    requires files != []
  {
    files[..|files| - 1]
  }

  function Last(files: seq<File>): File
    requires files != []
  {
    files[|files| - 1]
  }

  /** The first cluster number not handed out. */
  function NextFree(g: Geometry, files: seq<File>): (n: nat)
    requires g.clusterBytes > 0
    ensures n >= 3 + |files|
  {
    if files == [] then 3 else NextFree(g, Init(files)) + Span(g, Last(files))
  }

  /** Clusters that hold data. */
  function Used(g: Geometry, files: seq<File>): (n: nat)
    requires g.clusterBytes > 0
    ensures n <= NextFree(g, files) - 3
  {
    if files == [] then 0 else Used(g, Init(files)) + Alloc(g, Last(files))
  }

  /** The table entry of cluster `c`. */
  function Link(g: Geometry, files: seq<File>, c: nat): nat
    requires g.clusterBytes > 0
  {
    if files == [] then
      if c == 0 then 0xFFFF00 + g.media else if c == 1 then 0x0C00_0000 else if c == 2 then EOC else 0
    else if c < NextFree(g, Init(files)) then Link(g, Init(files), c)
    else if c + 1 < NextFree(g, files) then c + 1
    else if c + 1 == NextFree(g, files) then EOC
    else 0
  }

  // ----- addresses -----

  function EntryOff(g: Geometry, t: nat, c: nat): nat {
    g.base + 8 * g.sector + (if t == 0 then 0 else 4 * g.entries) + 4 * c
  }

  function SlotOff(g: Geometry, i: nat): nat {
    g.base + g.dataOff + 32 * i
  }

  function Slots(g: Geometry): nat {
    g.clusterBytes / 32
  }

  ghost predicate Fits(v: seq<byte>, g: Geometry) {
    Placed(g) && g.base + g.size <= |v|
  }

  lemma ClusterOffAdd(g: Geometry, c: nat, n: nat)
    requires c >= 2
    ensures ClusterOff(g, c + n) == ClusterOff(g, c) + n * g.clusterBytes
  {
    ClusterOffProduct(g, c);
    ClusterOffProduct(g, c + n);
    assert g.clusterBytes * (c + n - 2) == g.clusterBytes * (c - 2) + n * g.clusterBytes;
  }

  lemma {:induction false} ClusterOffMono(g: Geometry, c: nat, d: nat)
    requires 2 <= c <= d
    ensures ClusterOff(g, c) <= ClusterOff(g, d)
    decreases d
  {
    if c < d {
      ClusterOffMono(g, c, d - 1);
    }
  }

  /** Clusters up to the allocator's bound end inside the volume. */
  lemma ClusterInside(g: Geometry, c: nat)
    requires Placed(g) && 2 <= c <= g.maxCluster + 2
    ensures ClusterOff(g, c) <= g.base + g.size
  {
    ClusterOffMono(g, c, g.maxCluster + 2);
  }

  // ----- the invariant -----

  /** Entry `c` of table `t`. */
  function Ent(v: seq<byte>, g: Geometry, t: nat, c: nat): nat
    requires Fits(v, g) && t < 2 && c < g.entries
  {
    Field(v, EntryOff(g, t, c), 4)
  }

  function Slot(v: seq<byte>, g: Geometry, i: nat): seq<byte>
    requires Fits(v, g) && i < Slots(g)
  {
    v[SlotOff(g, i)..SlotOff(g, i) + 32]
  }

  /** Byte `i` of a directory entry; the dates and times are constants of the code. */
  function DirByte(name: seq<byte>, attr: byte, c: nat, size: nat, i: nat): byte
    requires |name| == 11 && i < 32
  {
    if i < 11 then name[i]
    else if i == 11 then attr
    else if i == 12 then 0
    else if i == 13 then 42
    else if i < 16 then Le(0x43CC, 2)[i - 14]
    else if i < 18 then Le(0x1E55, 2)[i - 16]
    else if i < 20 then Le(0x1E55, 2)[i - 18]
    else if i < 22 then Le(c / 0x1_0000, 2)[i - 20]
    else if i < 24 then Le(0x43CC, 2)[i - 22]
    else if i < 26 then Le(0x1E55, 2)[i - 24]
    else if i < 28 then Le(c % 0x1_0000, 2)[i - 26]
    else Le(size, 4)[i - 28]
  }

  /** The 32 bytes FAT32Copyin writes for a file whose first cluster is `c`. */
  function DirEntry(f: File, c: nat): (s: seq<byte>)
    requires FileOk(f)
    ensures |s| == 32
  {
    seq(32, i requires 0 <= i < 32 => DirByte(f.name, f.attr, c, |f.contents|, i))
  }

  /** The boot sector is that of the layout. */
  ghost predicate BootOk(v: seq<byte>, g: Geometry)
    requires Fits(v, g)
  {
    v[g.base..g.base + 512] == BootSector(g)
  }

  /** The fields of the BIOS parameter block that fix the geometry. */
  ghost predicate BootFields(v: seq<byte>, g: Geometry)
    requires Fits(v, g)
  {
    var o := g.base;
    && Field(v, o + 11, 2) == g.sector && v[o + 13] == g.spc && Field(v, o + 14, 2) == 8 && v[o + 16] == 2
    && Field(v, o + 17, 2) == 0 && Field(v, o + 19, 2) == 0 && v[o + 21] == g.media && Field(v, o + 22, 2) == 0
    && Field(v, o + 32, 4) == g.nSector && Field(v, o + 36, 4) == g.fatSectors && Field(v, o + 44, 4) == 2
    && Field(v, o + 48, 2) == 1 && Field(v, o + 50, 2) == 6 && v[o + 510] == 0x55 && v[o + 511] == 0xAA
  }

  /** The FSInfo sector agrees with the file list. */
  ghost predicate InfoOk(v: seq<byte>, g: Geometry, files: seq<File>)
    requires Fits(v, g)
  {
    var o := g.base + g.sector;
    && Field(v, o, 4) == 0x41615252 && Field(v, o + 484, 4) == 0x61417272
    && Field(v, o + 488, 4) + Used(g, files) == 2 * g.entries - 3
    && Field(v, o + 492, 4) == NextFree(g, files)
    && Field(v, o + 508, 4) == 0xAA55_0000
  }

  ghost predicate TableOk(v: seq<byte>, g: Geometry, t: nat, files: seq<File>)
    requires Fits(v, g) && t < 2
  {
    forall c :: 0 <= c < g.entries ==> Ent(v, g, t, c) == Link(g, files, c)
  }

  /** The slots in use. */
  ghost predicate Listed(v: seq<byte>, g: Geometry, files: seq<File>)
    requires Fits(v, g)
  {
    files == [] ||
    (&& Listed(v, g, Init(files)) && |files| <= Slots(g) && FileOk(Last(files))
     && Slot(v, g, |files| - 1) == DirEntry(Last(files), NextFree(g, Init(files))))
  }

  /** The slots from `n` on. */
  ghost predicate Vacant(v: seq<byte>, g: Geometry, n: nat)
    requires Fits(v, g)
  {
    forall i :: n <= i < Slots(g) ==> Slot(v, g, i) == Zeros(32)
  }

  /** `f` lies contiguously from cluster `c` on, padded with zeros. */
  ghost predicate DataAt(v: seq<byte>, g: Geometry, c: nat, f: File)
    requires Fits(v, g) && c >= 2
  {
    var o, e := ClusterOff(g, c), ClusterOff(g, c + Alloc(g, f));
    o + |f.contents| <= e <= g.base + g.size && v[o..e] == f.contents + Zeros(e - o - |f.contents|)
  }

  ghost predicate DataOk(v: seq<byte>, g: Geometry, files: seq<File>)
    requires Fits(v, g)
  {
    files == [] || (DataOk(v, g, Init(files)) && DataAt(v, g, NextFree(g, Init(files)), Last(files)))
  }

  /** The structures at sectors 6 and 7 repeat those at sectors 0 and 1. */
  ghost predicate BackupOk(v: seq<byte>, g: Geometry)
    requires Fits(v, g)
  {
    var o, s := g.base, g.sector;
    && v[o + 6 * s..o + 6 * s + 512] == v[o..o + 512]
    && v[o + 7 * s..o + 7 * s + 512] == v[o + s..o + s + 512]
  }

  /** The allocator stays within its bound once it has handed something out. */
  ghost predicate Capacity(g: Geometry, files: seq<File>)
    requires g.clusterBytes > 0
  {
    files != [] ==> NextFree(g, files) <= g.maxCluster
  }

  ghost predicate RepInv(v: seq<byte>, g: Geometry, files: seq<File>) {
    && Fits(v, g) && Capacity(g, files)
    && BootOk(v, g) && InfoOk(v, g, files) && BackupOk(v, g)
    && TableOk(v, g, 0, files) && TableOk(v, g, 1, files)
    && Listed(v, g, files) && Vacant(v, g, |files|) && DataOk(v, g, files)
  }

  // ----- locality: each part of the invariant looks at its own bytes only -----

  lemma FieldFrame(v: seq<byte>, w: seq<byte>, lo: nat, hi: nat, off: nat, n: nat)
    requires OnlyIn(v, w, lo, hi) && off + n <= |v|
    requires off + n <= lo || hi <= off
    ensures Field(w, off, n) == Field(v, off, n)
  {
    OnlyInSlice(v, w, lo, hi, off, off + n);
  }

  lemma BootFrame(v: seq<byte>, w: seq<byte>, g: Geometry, lo: nat, hi: nat)
    requires Fits(v, g) && OnlyIn(v, w, lo, hi) && (hi <= g.base || g.base + 512 <= lo)
    requires BootOk(v, g)
    ensures Fits(w, g) && BootOk(w, g)
  {
    hide BootSector, FatLayout.ClusterOff;
    OnlyInSlice(v, w, lo, hi, g.base, g.base + 512);
  }

  /** A reader of the boot sector finds the fields of the layout. */
  lemma BootRead(v: seq<byte>, g: Geometry)
    requires Fits(v, g) && Sectored(g) && BootOk(v, g)
    ensures BootFields(v, g)
  {
    hide Field, BootSector, FatLayout.ClusterOff;
    BootSectorTells(g);
    BootFieldsKept(BootSector(g), v, g.base);
  }

  lemma BootFieldsKept(s: seq<byte>, v: seq<byte>, o: nat)
    requires o + 512 <= |v| && s == v[o..o + 512]
    ensures Field(s, 11, 2) == Field(v, o + 11, 2) && Field(s, 14, 2) == Field(v, o + 14, 2)
    ensures Field(s, 17, 2) == Field(v, o + 17, 2) && Field(s, 19, 2) == Field(v, o + 19, 2)
    ensures Field(s, 22, 2) == Field(v, o + 22, 2) && Field(s, 32, 4) == Field(v, o + 32, 4)
    ensures Field(s, 36, 4) == Field(v, o + 36, 4) && Field(s, 44, 4) == Field(v, o + 44, 4)
    ensures Field(s, 48, 2) == Field(v, o + 48, 2) && Field(s, 50, 2) == Field(v, o + 50, 2)
    ensures s[13] == v[o + 13] && s[16] == v[o + 16] && s[21] == v[o + 21]
    ensures s[510] == v[o + 510] && s[511] == v[o + 511]
  {
    SliceOfSlice(v, o, o + 512, 11, 13);
    SliceOfSlice(v, o, o + 512, 14, 16);
    SliceOfSlice(v, o, o + 512, 17, 19);
    SliceOfSlice(v, o, o + 512, 19, 21);
    SliceOfSlice(v, o, o + 512, 22, 24);
    SliceOfSlice(v, o, o + 512, 32, 36);
    SliceOfSlice(v, o, o + 512, 36, 40);
    SliceOfSlice(v, o, o + 512, 44, 48);
    SliceOfSlice(v, o, o + 512, 48, 50);
    SliceOfSlice(v, o, o + 512, 50, 52);
  }

  lemma InfoFrame(v: seq<byte>, w: seq<byte>, g: Geometry, files: seq<File>, lo: nat, hi: nat)
    requires Fits(v, g) && OnlyIn(v, w, lo, hi) && (hi <= g.base + g.sector || g.base + g.sector + 512 <= lo)
    requires InfoOk(v, g, files)
    ensures Fits(w, g) && InfoOk(w, g, files)
  {
    hide Bytes.FromLe, FatLayout.ClusterOff;
    var o := g.base + g.sector;
    FieldFrame(v, w, lo, hi, o, 4);
    FieldFrame(v, w, lo, hi, o + 484, 4);
    FieldFrame(v, w, lo, hi, o + 488, 4);
    FieldFrame(v, w, lo, hi, o + 492, 4);
    FieldFrame(v, w, lo, hi, o + 508, 4);
  }

  lemma TableFrame(v: seq<byte>, w: seq<byte>, g: Geometry, t: nat, files: seq<File>, lo: nat, hi: nat)
    requires Fits(v, g) && OnlyIn(v, w, lo, hi) && t < 2
    requires hi <= g.base + 8 * g.sector || g.base + g.dataOff <= lo
    requires TableOk(v, g, t, files)
    ensures Fits(w, g) && TableOk(w, g, t, files)
  {
    forall c | 0 <= c < g.entries
      ensures Ent(w, g, t, c) == Link(g, files, c)
    {
      FieldFrame(v, w, lo, hi, EntryOff(g, t, c), 4);
      assert Ent(v, g, t, c) == Link(g, files, c);
    }
  }

  lemma {:induction false} ListedFrame(v: seq<byte>, w: seq<byte>, g: Geometry, files: seq<File>, lo: nat, hi: nat)
    requires Fits(v, g) && OnlyIn(v, w, lo, hi)
    requires hi <= g.base + g.dataOff || SlotOff(g, |files|) <= lo
    requires Listed(v, g, files)
    ensures Fits(w, g) && Listed(w, g, files)
    decreases |files|
  {
    if files != [] {
      ListedFrame(v, w, g, Init(files), lo, hi);
      var o := SlotOff(g, |files| - 1);
      OnlyInSlice(v, w, lo, hi, o, o + 32);
    }
  }

  lemma VacantFrame(v: seq<byte>, w: seq<byte>, g: Geometry, n: nat, lo: nat, hi: nat)
    requires Fits(v, g) && OnlyIn(v, w, lo, hi)
    requires hi <= SlotOff(g, n) || g.base + g.dataOff + g.clusterBytes <= lo
    requires Vacant(v, g, n)
    ensures Fits(w, g) && Vacant(w, g, n)
  {
    forall i | n <= i < Slots(g)
      ensures Slot(w, g, i) == Zeros(32)
    {
      OnlyInSlice(v, w, lo, hi, SlotOff(g, i), SlotOff(g, i) + 32);
      assert Slot(v, g, i) == Zeros(32);
    }
  }

  lemma {:induction false} DataFrame(v: seq<byte>, w: seq<byte>, g: Geometry, files: seq<File>, lo: nat, hi: nat)
    requires Fits(v, g) && OnlyIn(v, w, lo, hi)
    requires hi <= ClusterOff(g, 3) || ClusterOff(g, NextFree(g, files)) <= lo
    requires DataOk(v, g, files)
    ensures Fits(w, g) && DataOk(w, g, files)
    decreases |files|
  {
    if files != [] {
      var c, n := NextFree(g, Init(files)), Alloc(g, Last(files));
      ClusterOffMono(g, 3, c);
      ClusterOffMono(g, c, c + n);
      ClusterOffMono(g, c + n, NextFree(g, files));
      DataFrame(v, w, g, Init(files), lo, hi);
      DataAtFrame(v, w, g, c, Last(files), lo, hi);
    }
  }

  lemma DataAtFrame(v: seq<byte>, w: seq<byte>, g: Geometry, c: nat, f: File, lo: nat, hi: nat)
    requires Fits(v, g) && OnlyIn(v, w, lo, hi) && c >= 2 && DataAt(v, g, c, f)
    requires hi <= ClusterOff(g, c) || ClusterOff(g, c + Alloc(g, f)) <= lo
    ensures Fits(w, g) && DataAt(w, g, c, f)
  {
    OnlyInSlice(v, w, lo, hi, ClusterOff(g, c), ClusterOff(g, c + Alloc(g, f)));
  }

  lemma BackupFrame(v: seq<byte>, w: seq<byte>, g: Geometry, lo: nat, hi: nat)
    requires Fits(v, g) && OnlyIn(v, w, lo, hi) && (hi <= g.base || g.base + 8 * g.sector <= lo)
    requires BackupOk(v, g)
    ensures Fits(w, g) && BackupOk(w, g)
  {
    hide FatLayout.ClusterOff;
    var o, s := g.base, g.sector;
    OnlyInSlice(v, w, lo, hi, o, o + 512);
    OnlyInSlice(v, w, lo, hi, o + s, o + s + 512);
    OnlyInSlice(v, w, lo, hi, o + 6 * s, o + 6 * s + 512);
    OnlyInSlice(v, w, lo, hi, o + 7 * s, o + 7 * s + 512);
  }

  /** Writes below the volume do not touch it. */
  lemma BelowFrame(v: seq<byte>, w: seq<byte>, g: Geometry, files: seq<File>, lo: nat, hi: nat)
    requires RepInv(v, g, files) && OnlyIn(v, w, lo, hi) && hi <= g.base
    ensures RepInv(w, g, files)
  {
    hide BootOk, InfoOk, TableOk, Listed, Vacant, DataOk, BackupOk;
    BootFrame(v, w, g, lo, hi);
    InfoFrame(v, w, g, files, lo, hi);
    BackupFrame(v, w, g, lo, hi);
    TableFrame(v, w, g, 0, files, lo, hi);
    TableFrame(v, w, g, 1, files, lo, hi);
    ListedFrame(v, w, g, files, lo, hi);
    VacantFrame(v, w, g, |files|, lo, hi);
    DataFrame(v, w, g, files, lo, hi);
  }
}
