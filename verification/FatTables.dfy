/** The tables of a volume that satisfies the invariant, described without the
    function that defines them: chains, free entries, copies. */
module FatTables {
  import opened Bytes
  import opened FatLayout
  import opened FatBoot
  import opened FatImage
  import opened FatReader
  import opened FatSuper

  /** In table `t`, the `n` clusters from `c` on form one ascending chain that ends there. */
  ghost predicate ChainAt(v: seq<byte>, g: Geometry, t: nat, c: nat, n: nat)
    requires Fits(v, g) && t < 2
  {
    && 3 <= c && 1 <= n && c + n <= g.entries
    && (forall d :: c <= d < c + n - 1 ==> Ent(v, g, t, d) == d + 1) && Ent(v, g, t, c + n - 1) == EOC
  }

  /** The first cluster of file `i`. */
  function First(g: Geometry, files: seq<File>, i: nat): nat
    requires g.clusterBytes > 0 && i <= |files|
  {
    NextFree(g, files[..i])
  }

  /** Chains of different files do not meet, and all end below the allocator's mark. */
  lemma ChainsApart(g: Geometry, files: seq<File>, i: nat, j: nat)
    requires g.clusterBytes > 0 && i < j <= |files|
    ensures 3 <= First(g, files, i)
    ensures First(g, files, i) + Span(g, files[i]) <= First(g, files, j) <= NextFree(g, files)
  {
    PrefixStep(g, files, i);
    NextFreePrefix(g, files, j);
    assert files[..j][..i + 1] == files[..i + 1];
    NextFreePrefix(g, files[..j], i + 1);
  }

  lemma FileChain(v: seq<byte>, g: Geometry, t: nat, files: seq<File>, i: nat)
    requires Fits(v, g) && t < 2 && TableOk(v, g, t, files) && Capacity(g, files) && i < |files|
    ensures ChainAt(v, g, t, First(g, files, i), Span(g, files[i]))
  {
    ChainsApart(g, files, i, i + 1);
    var c, n := First(g, files, i), Span(g, files[i]);
    forall d | c <= d < c + n
      ensures Ent(v, g, t, d) == if d + 1 < c + n then d + 1 else EOC
    {
      LinkInFile(g, files, i, d);
    }
  }

  /** Entries nobody owns are free, and the root directory is a chain of one cluster. */
  lemma FreeEntries(v: seq<byte>, g: Geometry, t: nat, files: seq<File>, c: nat)
    requires Fits(v, g) && t < 2 && TableOk(v, g, t, files) && c < g.entries
    ensures NextFree(g, files) <= c ==> Ent(v, g, t, c) == 0
    ensures c == 0 ==> Ent(v, g, t, c) == 0xFFFF00 + g.media
    ensures c == 1 ==> Ent(v, g, t, c) == 0x0C00_0000
    ensures c == 2 ==> Ent(v, g, t, c) == EOC
  {
    if NextFree(g, files) <= c {
      LinkBeyond(g, files, c);
    } else if c <= 2 {
      LinkPrefix(g, files, 0, c);
    }
  }

  /** The two tables agree entry by entry, the backup sectors byte by byte. */
  ghost predicate CopiesAgree(v: seq<byte>, g: Geometry)
    requires Fits(v, g)
  {
    && (forall c :: 0 <= c < g.entries ==> Ent(v, g, 0, c) == Ent(v, g, 1, c))
    && v[g.base + 6 * g.sector..g.base + 6 * g.sector + 512] == v[g.base..g.base + 512]
    && v[g.base + 7 * g.sector..g.base + 7 * g.sector + 512] == v[g.base + g.sector..g.base + g.sector + 512]
  }

  /** Table `t` holds one chain per file, the root's one entry, and zeros from the allocator's mark on. */
  ghost predicate TableShape(v: seq<byte>, g: Geometry, t: nat, files: seq<File>)
    requires Fits(v, g) && t < 2
  {
    && (forall i :: 0 <= i < |files| ==> ChainAt(v, g, t, First(g, files, i), Span(g, files[i])))
    && (forall c :: NextFree(g, files) <= c < g.entries ==> Ent(v, g, t, c) == 0)
    && Ent(v, g, t, 0) == 0xFFFF00 + g.media && Ent(v, g, t, 1) == 0x0C00_0000 && Ent(v, g, t, 2) == 0xFFFF_FFFF
  }

  lemma TableShaped(v: seq<byte>, g: Geometry, t: nat, files: seq<File>)
    requires Fits(v, g) && t < 2 && TableOk(v, g, t, files) && Capacity(g, files)
    ensures TableShape(v, g, t, files)
  {
    hide ChainAt, First, TableOk, Capacity, Ent, ClusterOff;
    forall i | 0 <= i < |files|
      ensures ChainAt(v, g, t, First(g, files, i), Span(g, files[i]))
    {
      FileChain(v, g, t, files, i);
    }
    forall c | NextFree(g, files) <= c < g.entries
      ensures Ent(v, g, t, c) == 0
    {
      FreeEntries(v, g, t, files, c);
    }
    FreeEntries(v, g, t, files, 0);
    FreeEntries(v, g, t, files, 1);
    FreeEntries(v, g, t, files, 2);
  }

  /** File `i` lies in [3, nextFree) and before file `j`. */
  ghost predicate Before(g: Geometry, files: seq<File>, i: nat, j: nat)
    requires g.clusterBytes > 0 && i < j <= |files|
  {
    3 <= First(g, files, i) && First(g, files, i) + Span(g, files[i]) <= First(g, files, j) <= NextFree(g, files)
  }

  ghost predicate Ordered(g: Geometry, files: seq<File>)
    requires g.clusterBytes > 0
  {
    forall i, j :: 0 <= i < j <= |files| ==> Before(g, files, i, j)
  }

  lemma ChainsOrdered(g: Geometry, files: seq<File>)
    requires g.clusterBytes > 0
    ensures Ordered(g, files)
  {
    forall i, j | 0 <= i < j <= |files|
      ensures Before(g, files, i, j)
    {
      ChainsApart(g, files, i, j);
    }
  }

  /**
   * In every reachable image, in both tables: each file owns one ascending
   * contiguous chain in [3, nextFree), chains are disjoint, everything from
   * nextFree to the end of the table is free, the root is cluster 2 alone, and
   * the redundant copies agree.
   */
  lemma AllocatorInvariant(v: seq<byte>, g: Geometry, files: seq<File>)
    requires RepInv(v, g, files)
    ensures Ordered(g, files) && TableShape(v, g, 0, files) && TableShape(v, g, 1, files) && CopiesAgree(v, g)
  {
    hide BootOk, InfoOk, Listed, Vacant, DataOk, TableShape, Ordered;
    ChainsOrdered(g, files);
    TableShaped(v, g, 0, files);
    TableShaped(v, g, 1, files);
  }

  // ----- the reserved sectors and the slack -----

  /** FSInfo as section 5 of the FAT specification lays it out. */
  predicate InfoTells(v: seq<byte>, o: nat, free: nat, next: nat)
    requires o + 512 <= |v|
  {
    && Field(v, o, 4) == 0x4161_5252 && Field(v, o + 484, 4) == 0x6141_7272
    && Field(v, o + 488, 4) == free && Field(v, o + 492, 4) == next && Field(v, o + 508, 4) == 0xAA55_0000
  }

  /** What a reader finds in the first two sectors of every reachable image. */
  lemma ReservedTells(v: seq<byte>, g: Geometry, files: seq<File>)
    requires RepInv(v, g, files) && Sound(g)
    ensures BootTells(v[g.base..g.base + 512], g)
    ensures InfoTells(v, g.base + g.sector, 2 * g.entries - 3 - Used(g, files), NextFree(g, files))
  {
    hide TableOk, Listed, Vacant, DataOk, BackupOk, BootTells, BootSector, Field;
    BootSectorTells(g);
  }

  /** From the end of a file to the end of its last cluster there are zeros. */
  lemma SlackIsZero(v: seq<byte>, g: Geometry, files: seq<File>, i: nat, k: nat)
    requires RepInv(v, g, files) && i < |files|
    requires var c := First(g, files, i);
      ClusterOff(g, c) + |files[i].contents| <= k < ClusterOff(g, c + CDiv(|files[i].contents|, g.clusterBytes))
    ensures k < |v| && v[k] == 0
  {
    hide BootOk, InfoOk, TableOk, Listed, Vacant, BackupOk;
    DataAtIndex(v, g, files, i);
    var c, f := First(g, files, i), files[i];
    var o, e := ClusterOff(g, c), ClusterOff(g, c + Alloc(g, f));
    assert v[o..e][k - o] == v[k];
  }

  /** The root directory holds as many files as 32-byte entries fill its cluster. */
  lemma SlotsFill(g: Geometry)
    requires Placed(g)
    ensures 32 * Slots(g) == g.clusterBytes
  {
    hide FatLayout.ClusterOff;
  }
}
