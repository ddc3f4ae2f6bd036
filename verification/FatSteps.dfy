/** How the representation invariant moves from a file list to the list with
    one more file: one lemma per region that FAT32Copyin writes. */
module FatSteps {
  import opened Bytes
  import opened FatLayout
  import opened FatImage

  /**
   * The invariant in the middle of a copy: FSInfo, the tables, the directory
   * and the data region each describe a file list of their own.
   */
  ghost predicate Mixed(v: seq<byte>, g: Geometry,
                        info: seq<File>, table: seq<File>, dir: seq<File>, data: seq<File>)
  {
    && Fits(v, g) && BootOk(v, g) && InfoOk(v, g, info)
    && TableOk(v, g, 0, table) && TableOk(v, g, 1, table)
    && Listed(v, g, dir) && Vacant(v, g, |dir|) && DataOk(v, g, data)
  }

  lemma Extended(g: Geometry, files: seq<File>, f: File)
    requires g.clusterBytes > 0
    ensures Init(files + [f]) == files && Last(files + [f]) == f
    ensures NextFree(g, files + [f]) == NextFree(g, files) + Span(g, f)
    ensures Used(g, files + [f]) == Used(g, files) + Alloc(g, f)
  {
    assert (files + [f])[..|files|] == files;
  }

  lemma ThirdCluster(g: Geometry, c: nat)
    requires c >= 3
    ensures g.base + g.dataOff + g.clusterBytes <= ClusterOff(g, c)
  {
    ClusterOffMono(g, 3, c);
    assert ClusterOff(g, 3) == ClusterOff(g, 2) + g.clusterBytes;
  }

  /** Bytes of free clusters carry no meaning. */
  lemma FreeSpaceWritten(v: seq<byte>, w: seq<byte>, g: Geometry, files: seq<File>, hi: nat)
    requires Mixed(v, g, files, files, files, files)
    requires OnlyIn(v, w, ClusterOff(g, NextFree(g, files)), hi)
    ensures Mixed(w, g, files, files, files, files)
    ensures BackupOk(v, g) ==> BackupOk(w, g)
  {
    var lo := ClusterOff(g, NextFree(g, files));
    ThirdCluster(g, NextFree(g, files));
    BootFrame(v, w, g, lo, hi);
    InfoFrame(v, w, g, files, lo, hi);
    TableFrame(v, w, g, 0, files, lo, hi);
    TableFrame(v, w, g, 1, files, lo, hi);
    assert |files| <= Slots(g) by { ListedFits(v, g, files); }
    ListedFrame(v, w, g, files, lo, hi);
    VacantFrame(v, w, g, |files|, lo, hi);
    DataFrame(v, w, g, files, lo, hi);
    if BackupOk(v, g) {
      BackupFrame(v, w, g, lo, hi);
    }
  }

  lemma ListedFits(v: seq<byte>, g: Geometry, files: seq<File>)
    requires Fits(v, g) && Listed(v, g, files)
    ensures |files| <= Slots(g)
  {
  }

  lemma DataPlaced(w: seq<byte>, g: Geometry, files: seq<File>, f: File)
    requires Mixed(w, g, files, files, files, files)
    requires DataAt(w, g, NextFree(g, files), f)
    ensures Mixed(w, g, files, files, files, files + [f])
  {
    Extended(g, files, f);
  }

  lemma DirectoryExtended(v: seq<byte>, w: seq<byte>, g: Geometry, files: seq<File>, f: File)
    requires Fits(v, g) && Listed(v, g, files) && Vacant(v, g, |files|)
    requires |files| < Slots(g) && FileOk(f)
    requires OnlyIn(v, w, SlotOff(g, |files|), SlotOff(g, |files|) + 32)
    requires w[SlotOff(g, |files|)..SlotOff(g, |files|) + 32] == DirEntry(f, NextFree(g, files))
    ensures Fits(w, g) && Listed(w, g, files + [f]) && Vacant(w, g, |files| + 1)
  {
    var lo := SlotOff(g, |files|);
    ListedFrame(v, w, g, files, lo, lo + 32);
    VacantFrame(v, w, g, |files| + 1, lo, lo + 32);
    ListedExtended(w, g, files, f);
  }

  lemma ListedExtended(w: seq<byte>, g: Geometry, files: seq<File>, f: File)
    requires Fits(w, g) && Listed(w, g, files) && |files| < Slots(g) && FileOk(f)
    requires Slot(w, g, |files|) == DirEntry(f, NextFree(g, files))
    ensures Listed(w, g, files + [f])
  {
    Extended(g, files, f);
  }

  lemma EntryPlaced(v: seq<byte>, w: seq<byte>, g: Geometry, files: seq<File>, f: File)
    requires Mixed(v, g, files, files, files, files + [f])
    requires |files| < Slots(g) && FileOk(f)
    requires OnlyIn(v, w, SlotOff(g, |files|), SlotOff(g, |files|) + 32)
    requires w[SlotOff(g, |files|)..SlotOff(g, |files|) + 32] == DirEntry(f, NextFree(g, files))
    ensures Mixed(w, g, files, files, files + [f], files + [f])
  {
    var lo := SlotOff(g, |files|);
    DirectoryExtended(v, w, g, files, f);
    BootFrame(v, w, g, lo, lo + 32);
    InfoFrame(v, w, g, files, lo, lo + 32);
    TableFrame(v, w, g, 0, files, lo, lo + 32);
    TableFrame(v, w, g, 1, files, lo, lo + 32);
    ThirdCluster(g, 3);
    DataFrame(v, w, g, files + [f], lo, lo + 32);
  }

  lemma ChainPlaced(v: seq<byte>, w: seq<byte>, g: Geometry, files: seq<File>, f: File)
    requires Mixed(v, g, files, files, files + [f], files + [f])
    requires OnlyIn(v, w, g.base + 8 * g.sector, g.base + g.dataOff)
    requires TableOk(w, g, 0, files + [f]) && TableOk(w, g, 1, files + [f])
    ensures Mixed(w, g, files, files + [f], files + [f], files + [f])
  {
    var lo, hi := g.base + 8 * g.sector, g.base + g.dataOff;
    BootFrame(v, w, g, lo, hi);
    InfoFrame(v, w, g, files, lo, hi);
    ListedFrame(v, w, g, files + [f], lo, hi);
    VacantFrame(v, w, g, |files| + 1, lo, hi);
    ThirdCluster(g, 3);
    DataFrame(v, w, g, files + [f], lo, hi);
  }

  lemma InfoPlaced(v: seq<byte>, w: seq<byte>, g: Geometry, old_: seq<File>, files: seq<File>)
    requires Mixed(v, g, old_, files, files, files)
    requires OnlyIn(v, w, g.base + g.sector, g.base + g.sector + 512)
    requires InfoOk(w, g, files)
    ensures Mixed(w, g, files, files, files, files)
  {
    var lo, hi := g.base + g.sector, g.base + g.sector + 512;
    BootFrame(v, w, g, lo, hi);
    TableFrame(v, w, g, 0, files, lo, hi);
    TableFrame(v, w, g, 1, files, lo, hi);
    ListedFrame(v, w, g, files, lo, hi);
    VacantFrame(v, w, g, |files|, lo, hi);
    ThirdCluster(g, 3);
    DataFrame(v, w, g, files, lo, hi);
  }

  lemma BackedUp(v: seq<byte>, w: seq<byte>, g: Geometry, files: seq<File>)
    requires Mixed(v, g, files, files, files, files)
    requires OnlyIn(v, w, g.base + 6 * g.sector, g.base + 8 * g.sector)
    ensures Mixed(w, g, files, files, files, files)
  {
    var lo, hi := g.base + 6 * g.sector, g.base + 8 * g.sector;
    BootFrame(v, w, g, lo, hi);
    InfoFrame(v, w, g, files, lo, hi);
    TableFrame(v, w, g, 0, files, lo, hi);
    TableFrame(v, w, g, 1, files, lo, hi);
    ListedFrame(v, w, g, files, lo, hi);
    VacantFrame(v, w, g, |files|, lo, hi);
    ThirdCluster(g, 3);
    DataFrame(v, w, g, files, lo, hi);
  }
}
