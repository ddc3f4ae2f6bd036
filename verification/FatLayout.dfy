/** Where a FAT32 volume keeps things: the arithmetic of createFAT32
    (gpt/fat.c) and the facts about it that the byte-level proofs use. */
module FatLayout {
  import opened Arith
  import opened Bytes

  /** struct FATConfig, without the unused `writeRandomData`. */
  datatype Config = Config(nSector: nat, bytesPerSector: nat, clusterSize: nat, isFixed: bool)

  /** How many pieces of `b` cover `a`. */
  function CDiv(a: nat, b: nat): nat
    requires b > 0
    decreases a
  {
    if a == 0 then 0 else if a <= b then 1 else 1 + CDiv(a - b, b)
  }

  lemma {:induction false} CDivBounds(a: nat, b: nat)
    requires b > 0
    ensures a <= CDiv(a, b) * b < a + b
    decreases a
  {
    if a > b {
      CDivBounds(a - b, b);
      assert CDiv(a, b) * b == CDiv(a - b, b) * b + b;
    }
  }

  /** The CDIV macro computes it. */
  lemma CDivIsMacro(a: nat, b: nat)
    requires b > 0
    ensures (a + b - 1) / b == CDiv(a, b)
  {
    CDivBounds(a, b);
    DivUnique(a + b - 1, b, CDiv(a, b));
  }

  predicate ValidSectorSize(n: nat) {
    n == 512 || n == 1024 || n == 2048 || n == 4096
  }

  predicate ValidClusterSize(n: nat) {
    n == 1 || n == 2 || n == 4 || n == 8 || n == 16 || n == 32 || n == 64 || n == 128
  }

  /** What createFAT32 checks before it writes anything. */
  predicate Accepted(cfg: Config) {
    16 <= cfg.nSector && ValidSectorSize(cfg.bytesPerSector) && ValidClusterSize(cfg.clusterSize)
  }

  /** The assertion createFAT32 makes about an accepted configuration. */
  predicate EnoughClusters(cfg: Config)
    requires Accepted(cfg)
  {
    cfg.nSector / cfg.clusterSize > 2
  }

  /** Byte offsets inside the volume stay below 2^32. */
  predicate Addressable(cfg: Config) {
    cfg.nSector * cfg.bytesPerSector < U32
  }

  predicate Formats(cfg: Config) {
    Accepted(cfg) && EnoughClusters(cfg) && Addressable(cfg)
  }

  function FatSectors(cfg: Config): nat
    requires Accepted(cfg)
  {
    CDiv(cfg.nSector / cfg.clusterSize, cfg.bytesPerSector / 4)
  }

  /**
   * The shape of a volume. Sizes and offsets in bytes are stored rather than
   * recomputed, so that reasoning about addresses stays linear.
   */
  datatype Geometry = Geometry(
    base: nat,          // first byte of the volume on the disk
    nSector: nat,       // sectors of the volume
    sector: nat,        // bytes per sector
    spc: nat,           // sectors per cluster
    fatSectors: nat,    // sectors of one table
    media: byte,
    entries: nat,       // entries of one table
    dataSector: nat,    // first sector of the data region
    dataOff: nat,       // the same in bytes
    clusterBytes: nat,
    maxCluster: nat,    // FAT32Super.maxCluster, an exclusive bound
    size: nat)          // bytes of the volume

  function Shape(base: nat, nSector: nat, sector: nat, spc: nat, fatSectors: nat, media: byte): Geometry
    requires spc > 0
    requires 8 + 2 * fatSectors <= nSector
  {
    var dataSector := 8 + 2 * fatSectors;
    Geometry(base, nSector, sector, spc, fatSectors, media, fatSectors * sector / 4, dataSector,
             dataSector * sector, spc * sector, (nSector - dataSector) / spc, nSector * sector)
  }

  /** Where cluster `c` starts, in bytes. */
  function ClusterOff(g: Geometry, c: nat): nat
    requires c >= 2
  {
    if c == 2 then g.base + g.dataOff else ClusterOff(g, c - 1) + g.clusterBytes
  }

  /** The closed form FAT32SuperCluster uses. */
  lemma {:induction false} ClusterOffProduct(g: Geometry, c: nat)
    requires c >= 2
    ensures ClusterOff(g, c) == g.base + g.dataOff + g.clusterBytes * (c - 2)
    decreases c
  {
    if c > 2 {
      ClusterOffProduct(g, c - 1);
    }
  }

  /** The order and extent of the regions, in bytes. */
  ghost predicate Placed(g: Geometry) {
    && 512 <= g.sector && 128 <= g.entries && 1 <= g.maxCluster <= g.entries
    && g.dataOff == 8 * g.sector + 8 * g.entries
    && 512 <= g.clusterBytes && g.clusterBytes % 32 == 0
    && g.dataOff + g.clusterBytes <= g.size < U32
    && ClusterOff(g, g.maxCluster + 2) <= g.base + g.size
  }

  /** The same geometry counted in sectors. */
  ghost predicate Sectored(g: Geometry) {
    && ValidSectorSize(g.sector) && ValidClusterSize(g.spc)
    && g.fatSectors * g.sector == 4 * g.entries
    && g.dataSector == 8 + 2 * g.fatSectors
    && g.dataSector * g.sector == g.dataOff
    && g.clusterBytes == g.spc * g.sector
    && g.size == g.nSector * g.sector
    && g.dataSector <= g.nSector && g.maxCluster == (g.nSector - g.dataSector) / g.spc
  }

  ghost predicate Sound(g: Geometry) {
    Placed(g) && Sectored(g)
  }

  function Layout(cfg: Config, base: nat): (g: Geometry)
    requires Formats(cfg)
  {
    RoomForRoot(cfg);
    Shape(base, cfg.nSector, cfg.bytesPerSector, cfg.clusterSize, FatSectors(cfg), if cfg.isFixed then 0xF8 else 0xF0)
  }

  lemma FatSectorsBound(x: nat, eps: nat)
    requires eps >= 128 && x >= 1
    ensures 1 <= CDiv(x, eps)
    ensures 128 * CDiv(x, eps) < x + 128
  {
    CDivBounds(x, eps);
    CeilingBound(x, eps, CDiv(x, eps));
  }

  lemma CeilingBound(x: nat, eps: nat, q: nat)
    requires eps >= 128 && x >= 1
    requires x <= q * eps < x + eps
    ensures 1 <= q && 128 * q < x + 128
  {
    if q >= 1 {
      MulMono(128, eps, q - 1);
      assert q * eps == eps * (q - 1) + eps;
    }
  }

  /** Reserved sectors, both tables and the root cluster fit in the volume. */
  lemma RoomForRoot(cfg: Config)
    requires Accepted(cfg) && EnoughClusters(cfg)
    ensures FatSectors(cfg) > 0
    ensures 8 + 2 * FatSectors(cfg) + cfg.clusterSize <= cfg.nSector
  {
    var n, c := cfg.nSector, cfg.clusterSize;
    var x := n / c;
    FatSectorsBound(x, cfg.bytesPerSector / 4);
    assert 3 * c <= n;
    assert x <= n;
  }

  /**
   * Every configuration createFAT32 accepts and does not abort on gives a
   * sound geometry: no subtraction underflows, the allocator's bound never
   * exceeds the entries of one table, and its clusters end inside the volume.
   */
  lemma LayoutIsSound(cfg: Config, base: nat)
    requires Formats(cfg)
    ensures Sound(Layout(cfg, base))
  {
    hide FatSectors, ClusterOff;
    var g := Layout(cfg, base);
    LayoutIsSectored(cfg, base);
    RoomForRoot(cfg);
    EntriesCover(cfg, base);
    ClusterRoom(g);
    FatBytesAreEntries(g.fatSectors, g.sector);
    Distribute(g.fatSectors, g.sector);
    ClusterOffProduct(g, g.maxCluster + 2);
  }

  /** What is accepted, number by number. */
  lemma FormatsIff(cfg: Config)
    ensures Formats(cfg) <==>
      && cfg.nSector >= 16 && cfg.bytesPerSector in {512, 1024, 2048, 4096}
      && cfg.clusterSize in {1, 2, 4, 8, 16, 32, 64, 128}
      && cfg.nSector / cfg.clusterSize > 2 && cfg.nSector * cfg.bytesPerSector < 0x1_0000_0000
  {
  }

  /**
   * The layout, number by number: each table has the least number of sectors
   * with an entry for every cluster of the disk, data starts behind eight
   * reserved sectors and two tables, and the allocator's bound is the number
   * of whole clusters behind.
   */
  lemma LayoutNumbers(cfg: Config, base: nat)
    requires Formats(cfg)
    ensures var g := Layout(cfg, base);
      && g.base == base && g.nSector == cfg.nSector && g.sector == cfg.bytesPerSector && g.spc == cfg.clusterSize
      && g.media == (if cfg.isFixed then 0xF8 else 0xF0) && g.dataSector == 8 + 2 * g.fatSectors
      && g.size == cfg.nSector * cfg.bytesPerSector
    ensures var g := Layout(cfg, base); var perSector := cfg.bytesPerSector / 4;
      g.fatSectors > 0 && (g.fatSectors - 1) * perSector < cfg.nSector / cfg.clusterSize <= g.fatSectors * perSector
    ensures var g := Layout(cfg, base);
      cfg.clusterSize * g.maxCluster <= cfg.nSector - g.dataSector < cfg.clusterSize * g.maxCluster + cfg.clusterSize
  {
    var g := Layout(cfg, base);
    var n, perSector := cfg.nSector / cfg.clusterSize, cfg.bytesPerSector / 4;
    RoomForRoot(cfg);
    CDivBounds(n, perSector);
    hide FatSectors, CDiv;
    OneLess(g.fatSectors, perSector);
    DivTimes(cfg.nSector - g.dataSector, cfg.clusterSize);
  }

  lemma OneLess(f: nat, p: nat)
    requires f > 0
    ensures (f - 1) * p == f * p - p
  {
  }

  lemma LayoutIsSectored(cfg: Config, base: nat)
    requires Formats(cfg)
    ensures Sectored(Layout(cfg, base))
  {
    hide FatSectors;
    var g := Layout(cfg, base);
    RoomForRoot(cfg);
    FatBytesAreEntries(g.fatSectors, g.sector);
  }

  lemma Distribute(f: nat, s: nat)
    ensures (8 + 2 * f) * s == 8 * s + 2 * (f * s)
  {
  }

  lemma FatBytesAreEntries(f: nat, s: nat)
    requires ValidSectorSize(s)
    ensures f * s == 4 * (f * s / 4)
    ensures f > 0 ==> 128 <= f * s / 4
  {
    assert s % 4 == 0;
    assert f * s == 4 * (f * (s / 4));
    if f > 0 {
      MulMono(1, f, s / 4);
    }
  }

  lemma EntriesCover(cfg: Config, base: nat)
    requires Formats(cfg)
    ensures Layout(cfg, base).maxCluster <= Layout(cfg, base).entries
  {
    var g := Layout(cfg, base);
    var eps := cfg.bytesPerSector / 4;
    RoomForRoot(cfg);
    CDivBounds(cfg.nSector / cfg.clusterSize, eps);
    QuarterOf(g.fatSectors, eps, g.sector);
    DivMono(g.nSector - g.dataSector, cfg.nSector, cfg.clusterSize);
  }

  lemma QuarterOf(f: nat, eps: nat, s: nat)
    requires s == 4 * eps
    ensures f * s / 4 == f * eps
  {
    assert f * s == 4 * (f * eps);
  }

  lemma DivMono(a: nat, b: nat, c: nat)
    requires a <= b && c > 0
    ensures a / c <= b / c
  {
    assert a / c * c <= a && b < (b / c + 1) * c;
    if b / c + 1 <= a / c {
      MulMono(b / c + 1, a / c, c);
    }
  }

  lemma ClusterRoom(g: Geometry)
    requires ValidSectorSize(g.sector) && ValidClusterSize(g.spc)
    requires g.dataSector + g.spc <= g.nSector
    requires g.dataOff == g.dataSector * g.sector && g.clusterBytes == g.spc * g.sector
    requires g.size == g.nSector * g.sector
    requires g.maxCluster == (g.nSector - g.dataSector) / g.spc
    ensures g.dataOff + g.clusterBytes <= g.size
    ensures g.dataOff + g.clusterBytes * g.maxCluster <= g.size
    ensures 512 <= g.clusterBytes && g.clusterBytes % 32 == 0 && 1 <= g.maxCluster
  {
    SectorsToBytes(g.dataSector, g.spc, g.nSector, g.sector);
    DivTimes(g.nSector - g.dataSector, g.spc);
    SectorsToBytes(g.dataSector, g.spc * g.maxCluster, g.nSector, g.sector);
    Regroup(g.spc, g.maxCluster, g.sector);
    ClusterBytesAligned(g.spc, g.sector);
  }

  lemma SectorsToBytes(a: nat, b: nat, n: nat, s: nat)
    requires a + b <= n
    ensures a * s + b * s <= n * s
  {
    MulMono(a + b, n, s);
  }

  lemma DivTimes(a: nat, b: nat)
    requires b > 0
    ensures b * (a / b) <= a < b * (a / b) + b
  {
  }

  lemma Regroup(a: nat, b: nat, c: nat)
    ensures a * b * c == a * c * b
  {
  }

  lemma ClusterBytesAligned(spc: nat, s: nat)
    requires ValidSectorSize(s) && spc > 0
    ensures 512 <= spc * s && spc * s % 32 == 0
  {
    MulMono(1, spc, s);
    var k := s / 32;
    Associate(spc, 32, k);
    MultipleOf32(spc * k);
  }

  lemma Associate(a: nat, b: nat, c: nat)
    ensures a * (b * c) == b * (a * c)
  {
  }

  lemma MultipleOf32(n: nat)
    ensures 32 * n % 32 == 0
  {
  }
}
