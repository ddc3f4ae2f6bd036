/** The superblock routines of gpt/fat.c: FAT32SuperInit, which reads the layout
    back from the disk, and FAT32SuperWriteEntry, which keeps the tables equal. */
module FatSuper {
  import opened Arith
  import opened Wrappers
  import opened Bytes
  import Endian
  import opened FatLayout
  import opened FatImage
  import opened FatReader
  import opened FatSteps

  // A `Geometry` stands for the layout fields of struct FAT32Super; pointers
  // into the image become byte offsets into the disk.

  /** FAT32SuperGetSector: where a sector starts, or NULL. */
  function GetSector(sb: Geometry, sector: nat): Option<nat> {
    if sector >= sb.nSector then None else Some(sb.base + sector * sb.sector)
  }

  /** FAT32SuperCluster: where a cluster starts, or NULL. */
  function GetCluster(sb: Geometry, cluster: nat): Option<nat> {
    if cluster < 2 || cluster >= sb.maxCluster then None
    else Some(sb.base + sb.sector * (2 * sb.fatSectors + 8) + sb.clusterBytes * (cluster - 2))
  }

  /** clusterToFATEntry, without the packing of both numbers into one word: sector and offset of an entry. */
  function ClusterToFatEntry(sb: Geometry, n: nat): (nat, nat)
    requires sb.sector > 0
  {
    (8 + 4 * n / sb.sector, 4 * n % sb.sector)
  }

  /** The first sector of cluster `c`, as FAT32Copyin computes it. */
  function SectorOf(g: Geometry, c: nat): nat
    requires c >= 2
  {
    var n: nat := c - 2;
    n * g.spc + g.dataSector
  }

  /** The address schemes agree: that sector starts at the cluster's byte offset. */
  lemma SectorIsCluster(g: Geometry, c: nat)
    requires Sectored(g) && c >= 2
    ensures g.base + SectorOf(g, c) * g.sector == ClusterOff(g, c)
    ensures c <= g.maxCluster ==> SectorOf(g, c) < g.nSector
  {
    ClusterOffProduct(g, c);
    SectorProduct(c - 2, g.spc, g.dataSector, g.sector);
    if c <= g.maxCluster {
      DivTimes(g.nSector - g.dataSector, g.spc);
      MulMono(c - 2, g.maxCluster, g.spc);
      SpareCluster(c, g.maxCluster, g.spc);
    }
  }

  lemma SectorProduct(n: nat, spc: nat, data: nat, s: nat)
    ensures (n * spc + data) * s == data * s + spc * s * n
  {
  }

  lemma SpareCluster(c: nat, m: nat, spc: nat)
    requires 2 <= c <= m && spc > 0
    ensures (c - 2) * spc < spc * m
  {
    MulMono(c - 1, m, spc);
    assert (c - 1) * spc == (c - 2) * spc + spc;
  }

  /** The three ways the code computes addresses agree with one another and stay inside the volume. */
  lemma AddressesAgree(g: Geometry, c: nat)
    requires Sound(g) && 2 <= c < g.maxCluster
    ensures GetCluster(g, c) == Some(ClusterOff(g, c)) == GetSector(g, SectorOf(g, c))
    ensures ClusterOff(g, c) + g.clusterBytes <= g.base + g.size
    ensures var (sec, off) := ClusterToFatEntry(g, c);
      g.base + sec * g.sector + off == EntryOff(g, 0, c) && EntryOff(g, 0, c) + 4 <= EntryOff(g, 1, 0)
  {
    hide FatLayout.Sectored, FatLayout.Placed, ClusterToFatEntry, GetCluster, GetSector, SectorOf;
    hide FatLayout.ClusterOff, EntryOff;
    ClusterAddress(g, c);
    SectorAddress(g, c);
    ClusterEndsInside(g, c);
    FatEntryAddress(g, c);
  }

  lemma ClusterAddress(g: Geometry, c: nat)
    requires Sectored(g) && 2 <= c < g.maxCluster
    ensures GetCluster(g, c) == Some(ClusterOff(g, c))
  {
    ClusterOffProduct(g, c);
    Commute(g.sector, g.dataSector);
  }

  lemma SectorAddress(g: Geometry, c: nat)
    requires Sectored(g) && 2 <= c < g.maxCluster
    ensures GetSector(g, SectorOf(g, c)) == Some(ClusterOff(g, c))
  {
    hide FatLayout.Sectored, FatLayout.ClusterOff;
    SectorIsCluster(g, c);
  }

  lemma ClusterEndsInside(g: Geometry, c: nat)
    requires Placed(g) && 2 <= c < g.maxCluster
    ensures ClusterOff(g, c) + g.clusterBytes <= g.base + g.size
  {
    ClusterInside(g, c + 1);
  }

  lemma FatEntryAddress(g: Geometry, c: nat)
    requires Placed(g) && 2 <= c < g.maxCluster
    ensures var (sec, off) := ClusterToFatEntry(g, c);
      g.base + sec * g.sector + off == EntryOff(g, 0, c) && EntryOff(g, 0, c) + 4 <= EntryOff(g, 1, 0)
  {
    hide FatLayout.ClusterOff;
    EntryAddress(4 * c, g.sector);
  }

  lemma Commute(a: nat, b: nat)
    ensures a * b == b * a
  {
  }

  /** numSectorDataRegion: sectors behind the tables, in 32-bit arithmetic; `None` when its assertion fails. */
  function NumSectorDataRegion(v: seq<byte>, o: nat): Option<nat>
    requires o + 512 <= |v|
  {
    var fat := if Field(v, o + 22, 2) != 0 then Field(v, o + 22, 2) else Field(v, o + 36, 4);
    var total := if Field(v, o + 19, 2) != 0 then Field(v, o + 19, 2) else Field(v, o + 32, 4);
    var data := (total - (Field(v, o + 14, 2) + fat * v[o + 16] + Field(v, o + 17, 2))) % U32;
    if data < total then Some(data) else None
  }

  /** On a formatted volume it passes its assertion and counts the sectors from which the allocator's bound derives. */
  lemma DataRegionAgrees(v: seq<byte>, g: Geometry)
    requires Fits(v, g) && Sectored(g) && BootOk(v, g)
    ensures NumSectorDataRegion(v, g.base) == Some(g.nSector - g.dataSector)
    ensures g.maxCluster == (g.nSector - g.dataSector) / g.spc
  {
    hide Field, FatLayout.ClusterOff, BootOk;
    BootRead(v, g);
    SectorsBound(g.nSector, g.sector, g.size);
    NoBorrow(g.nSector, 8 + g.fatSectors * 2 + 0);
  }

  lemma NoBorrow(total: nat, used: nat)
    requires used <= total < U32
    ensures (total - used) % U32 == total - used
  {
  }

  lemma SectorsBound(n: nat, s: nat, size: nat)
    requires s >= 1 && n * s == size < U32
    ensures n < U32
  {
  }

  lemma EntryAddress(x: nat, s: nat)
    requires s > 0
    ensures (8 + x / s) * s + x % s == 8 * s + x
  {
    assert (8 + x / s) * s == 8 * s + x / s * s;
  }

  /** The root directory's chain is followed to its end, however long it is. */
  method RootClusters(disk: array<byte>, g: Geometry, root: nat, ghost fuel: nat,
                      ghost chain: seq<nat>) returns (n: nat)
    requires Fits(disk[..], g) && Walk(disk[..], g, root, fuel) == Some(chain)
    ensures n == |chain|
  {
    hide Bytes.FromLe, FatLayout.ClusterOff;
    ghost var v := disk[..];
    n := 1;
    var ptr: nat := root;
    ghost var k: nat := fuel;
    var next := Endian.Load(Endian.HOST, disk, EntryOff(g, 0, ptr), 4);
    assert chain[0..] == chain;
    while next != 0xFFFF_FFFF
      invariant 1 <= n <= |chain| && Walk(v, g, ptr, k) == Some(chain[n - 1..])
      invariant ptr < g.entries && next == Ent(v, g, 0, ptr)
      decreases |chain| - n
    {
      ghost var rest := chain[n - 1..];
      assert rest[1..] == chain[n..];
      ptr := next;
      k := k - 1;
      next := Endian.Load(Endian.HOST, disk, EntryOff(g, 0, ptr), 4);
      n := n + 1;
    }
  }

  /** The first byte of directory entry `i`. */
  function NameByte(v: seq<byte>, at: nat, i: nat): byte
    requires at + 32 * i < |v|
  {
    v[at + 32 * i]
  }

  ghost predicate IsFreeSlot(v: seq<byte>, at: nat, slot: nat, count: nat) {
    && at + 32 * count <= |v| && slot <= count
    && (forall i :: 0 <= i < slot ==> NameByte(v, at, i) != 0)
    && (slot < count ==> NameByte(v, at, slot) == 0)
  }

  /** The first directory entry whose name starts with a zero byte, or the number of entries. */
  method FreeSlot(disk: array<byte>, at: nat, count: nat) returns (slot: nat)
    requires at + 32 * count <= disk.Length
    ensures IsFreeSlot(disk[..], at, slot, count)
  {
    slot := 0;
    while slot < count
      invariant slot <= count
      invariant forall i :: 0 <= i < slot ==> NameByte(disk[..], at, i) != 0
    {
      if disk[at + 32 * slot] == 0 {
        return;
      }
      slot := slot + 1;
    }
  }

  method LoadBoot(disk: array<byte>, base: nat, ghost g: Geometry)
    returns (sector: nat, spc: nat, fat: nat, total: nat, reserved: nat, nTables: nat, root: nat, media: byte)
    requires Fits(disk[..], g) && base == g.base && Sectored(g) && BootOk(disk[..], g)
    ensures sector == g.sector && spc == g.spc && fat == g.fatSectors && total == g.nSector
    ensures reserved == 8 && nTables == 2 && root == 2 && media == g.media
  {
    hide Field, Pow256, FatLayout.ClusterOff, BootOk, Sectored;
    BootRead(disk[..], g);
    sector := Endian.Load(Endian.HOST, disk, base + 11, 2);
    spc := disk[base + 13];
    fat := Endian.Load(Endian.HOST, disk, base + 36, 4);
    total := Endian.Load(Endian.HOST, disk, base + 32, 4);
    reserved := Endian.Load(Endian.HOST, disk, base + 14, 2);
    nTables := disk[base + 16];
    root := Endian.Load(Endian.HOST, disk, base + 44, 4);
    media := disk[base + 21];
  }

  /** The arithmetic of FAT32SuperInit. */
  method MakeSuper(base: nat, sector: nat, spc: nat, fat: nat, total: nat, reserved: nat, nTables: nat, media: byte,
                   ghost g: Geometry) returns (sb: Geometry)
    requires Sectored(g) && base == g.base && media == g.media
    requires sector == g.sector && spc == g.spc && fat == g.fatSectors && total == g.nSector
    requires reserved == 8 && nTables == 2
    ensures sb == g
  {
    var bytesPerCluster, bytesPerFAT, numFAT := spc * sector, fat * sector, fat * nTables;
    var numData := total - reserved - numFAT;
    var dataSector := reserved + numFAT;
    sb := Geometry(base, total, sector, spc, fat, media, bytesPerFAT / 4, dataSector, dataSector * sector,
                   bytesPerCluster, numData / spc, total * sector);
  }

  /** The number of root entries and the first free one. */
  method ScanRoot(disk: array<byte>, g: Geometry, root: nat, ghost fuel: nat, ghost chain: seq<nat>,
                  ghost rootBytes: nat)
    returns (next: nat, numRoot: nat)
    requires Fits(disk[..], g) && Walk(disk[..], g, root, fuel) == Some(chain)
    requires rootBytes == |chain| * g.clusterBytes && g.dataOff + rootBytes <= g.size
    ensures numRoot == rootBytes / 32 && IsFreeSlot(disk[..], SlotOff(g, 0), next, numRoot)
  {
    var n := RootClusters(disk, g, root, fuel, chain);
    numRoot := n * g.clusterBytes / 32;
    next := FreeSlot(disk, g.base + g.dataOff, numRoot);
  }

  /**
   * FAT32SuperInit. On any volume whose boot sector is sound and whose root
   * chain ends, it terminates, recovers the layout createFAT32 chose, counts
   * the root directory's entries and finds the first free one.
   */
  method SuperInit(disk: array<byte>, base: nat, ghost g: Geometry,
                   ghost fuel: nat, ghost chain: seq<nat>, ghost rootBytes: nat)
    returns (sb: Geometry, next: nat, numRoot: nat)
    requires Fits(disk[..], g) && base == g.base && Sectored(g) && BootOk(disk[..], g)
    requires Walk(disk[..], g, 2, fuel) == Some(chain)
    requires rootBytes == |chain| * g.clusterBytes && g.dataOff + rootBytes <= g.size
    ensures sb == g && numRoot == rootBytes / 32 && IsFreeSlot(disk[..], SlotOff(g, 0), next, numRoot)
  {
    hide Bytes.FromLe, FatLayout.ClusterOff, FatReader.Walk;
    ghost var d := disk[..];
    var sector, spc, fat, total, reserved, nTables, root, media := LoadBoot(disk, base, g);
    sb := MakeSuper(base, sector, spc, fat, total, reserved, nTables, media, g);
    assert disk[..] == d;
    next, numRoot := ScanRoot(disk, sb, root, fuel, chain, rootBytes);
  }

  // ----- table entries -----

  /** Entry (t, c) of `w` against that of `v`, where cluster `k` received `x`. */
  lemma EntStored(v: seq<byte>, w: seq<byte>, g: Geometry, t: nat, k: nat, x: nat, t': nat, c: nat)
    requires Fits(v, g) && t < 2 && t' < 2 && k < g.entries && c < g.entries
    requires OnlyIn(v, w, EntryOff(g, t, k), EntryOff(g, t, k) + 4)
    requires Field(w, EntryOff(g, t, k), 4) == x
    ensures Fits(w, g) && Ent(w, g, t', c) == if t' == t && c == k then x else Ent(v, g, t', c)
  {
    if t' != t || c != k {
      FieldFrame(v, w, EntryOff(g, t, k), EntryOff(g, t, k) + 4, EntryOff(g, t', c), 4);
    }
  }

  /** Tables `v` and `w` agree except that cluster `k` of the first `n` tables holds `x`. */
  ghost predicate EntriesSet(v: seq<byte>, w: seq<byte>, g: Geometry, n: nat, k: nat, x: nat)
    requires Fits(v, g) && Fits(w, g)
  {
    forall t, c :: 0 <= t < 2 && 0 <= c < g.entries ==>
      Ent(w, g, t, c) == if t < n && c == k then x else Ent(v, g, t, c)
  }

  lemma EntriesSetStep(u: seq<byte>, v: seq<byte>, w: seq<byte>, g: Geometry, t: nat, k: nat, x: nat)
    requires Fits(u, g) && Fits(v, g) && t < 2 && k < g.entries && EntriesSet(u, v, g, t, k, x)
    requires OnlyIn(v, w, EntryOff(g, t, k), EntryOff(g, t, k) + 4)
    requires Field(w, EntryOff(g, t, k), 4) == x
    ensures Fits(w, g) && EntriesSet(u, w, g, t + 1, k, x)
  {
    forall t', c | 0 <= t' < 2 && 0 <= c < g.entries
      ensures Ent(w, g, t', c) == if t' < t + 1 && c == k then x else Ent(u, g, t', c)
    {
      EntStored(v, w, g, t, k, x, t', c);
      assert Ent(v, g, t', c) == if t' < t && c == k then x else Ent(u, g, t', c);
    }
  }

  /** FAT32SuperWriteEntry: one entry of every table; false when its assertion fails. */
  method WriteEntry(disk: array<byte>, g: Geometry, cluster: nat, value: nat) returns (ok: bool)
    requires Fits(disk[..], g) && value < U32
    modifies disk
    ensures ok <==> 1 <= cluster < g.maxCluster
    ensures OnlyIn(old(disk[..]), disk[..], g.base + 8 * g.sector, g.base + g.dataOff)
    ensures ok ==> EntriesSet(old(disk[..]), disk[..], g, 2, cluster, value)
    ensures !ok ==> disk[..] == old(disk[..])
  {
    if !(1 <= cluster < g.maxCluster) {
      return false;
    }
    ghost var u := disk[..];
    for t := 0 to 2
      invariant OnlyIn(u, disk[..], g.base + 8 * g.sector, g.base + g.dataOff)
      invariant EntriesSet(u, disk[..], g, t, cluster, value)
    {
      ghost var d := disk[..];
      Endian.Store4(Endian.HOST, disk, EntryOff(g, t, cluster), value);
      EntriesSetStep(u, d, disk[..], g, t, cluster, value);
    }
    return true;
  }

  // ----- the chain of a new file -----

  /** The tables while the entries of clusters [next, cur) are being linked. */
  ghost predicate Linking(v: seq<byte>, g: Geometry, files: seq<File>, cur: nat)
    requires Fits(v, g)
  {
    forall t, c :: 0 <= t < 2 && 0 <= c < g.entries ==>
      Ent(v, g, t, c) == if NextFree(g, files) <= c < cur then c + 1 else Link(g, files, c)
  }

  lemma LinkingStarts(v: seq<byte>, g: Geometry, files: seq<File>)
    requires Fits(v, g) && TableOk(v, g, 0, files) && TableOk(v, g, 1, files)
    ensures Linking(v, g, files, NextFree(g, files))
  {
    forall t, c | 0 <= t < 2 && 0 <= c < g.entries
      ensures Ent(v, g, t, c) == Link(g, files, c)
    {
      assert t == 0 || t == 1;
    }
  }

  lemma LinkingStep(v: seq<byte>, w: seq<byte>, g: Geometry, files: seq<File>, cur: nat)
    requires Fits(v, g) && Fits(w, g) && Linking(v, g, files, cur) && NextFree(g, files) <= cur
    requires EntriesSet(v, w, g, 2, cur, cur + 1)
    ensures Linking(w, g, files, cur + 1)
  {
    forall t, c | 0 <= t < 2 && 0 <= c < g.entries
      ensures Ent(w, g, t, c) == if NextFree(g, files) <= c < cur + 1 then c + 1 else Link(g, files, c)
    {
      assert Ent(w, g, t, c) == if t < 2 && c == cur then cur + 1 else Ent(v, g, t, c);
    }
  }

  lemma {:induction false} LinkBeyond(g: Geometry, files: seq<File>, c: nat)
    requires g.clusterBytes > 0 && NextFree(g, files) <= c
    ensures Link(g, files, c) == 0
    decreases |files|
  {
    if files != [] {
      LinkBeyond(g, Init(files), c);
    }
  }

  lemma LinkingEnds(v: seq<byte>, w: seq<byte>, g: Geometry, files: seq<File>, f: File)
    requires Fits(v, g) && Fits(w, g)
    requires Linking(v, g, files, NextFree(g, files) + Span(g, f) - 1)
    requires EntriesSet(v, w, g, 2, NextFree(g, files) + Span(g, f) - 1, EOC)
    ensures TableOk(w, g, 0, files + [f]) && TableOk(w, g, 1, files + [f])
  {
    Extended(g, files, f);
    var last := NextFree(g, files) + Span(g, f) - 1;
    forall t, c | 0 <= t < 2 && 0 <= c < g.entries
      ensures Ent(w, g, t, c) == Link(g, files + [f], c)
    {
      assert Ent(w, g, t, c) == if t < 2 && c == last then EOC else Ent(v, g, t, c);
      if NextFree(g, files) <= c {
        LinkBeyond(g, files, c);
      }
    }
  }

  /** The loop that links a new file's clusters in every table; false when the last entry is out of bounds. */
  method WriteChain(disk: array<byte>, g: Geometry, first: nat, alloc: nat, ghost files: seq<File>, ghost f: File)
    returns (ok: bool, next: nat)
    requires Fits(disk[..], g) && TableOk(disk[..], g, 0, files) && TableOk(disk[..], g, 1, files)
    requires first == NextFree(g, files) && alloc == Alloc(g, f) && first + alloc <= g.maxCluster
    modifies disk
    ensures ok <==> first < g.maxCluster
    ensures OnlyIn(old(disk[..]), disk[..], g.base + 8 * g.sector, g.base + g.dataOff)
    ensures ok ==> next == NextFree(g, files + [f])
    ensures ok ==> TableOk(disk[..], g, 0, files + [f]) && TableOk(disk[..], g, 1, files + [f])
  {
    next := first;
    Extended(g, files, f);
    LinkingStarts(disk[..], g, files);
    var i := 1;
    while i < alloc
      invariant 1 <= i && (alloc == 0 ==> i == 1) && (alloc > 0 ==> i <= alloc)
      invariant next == first + i - 1
      invariant OnlyIn(old(disk[..]), disk[..], g.base + 8 * g.sector, g.base + g.dataOff)
      invariant Linking(disk[..], g, files, next)
    {
      ghost var v := disk[..];
      var done := WriteEntry(disk, g, next, 1 + next);
      LinkingStep(v, disk[..], g, files, next);
      next := next + 1;
      i := i + 1;
    }
    ghost var v := disk[..];
    ok := WriteEntry(disk, g, next, 0xFFFF_FFFF);
    if ok {
      LinkingEnds(v, disk[..], g, files, f);
      next := next + 1;
    }
  }
}
