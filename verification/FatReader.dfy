/** A FAT32 reader that trusts only the bytes of the volume: it takes the
    geometry from the boot sector, lists the root directory and follows table
    chains. On every image that satisfies the representation invariant it
    returns exactly the abstract file list. */
module FatReader {
  import opened Wrappers
  import opened Bytes
  import opened FatLayout
  import opened FatImage

  // ----- the reader -----

  /** The geometry the boot sector at `o` describes. */
  function Mount(v: seq<byte>, o: nat): Option<Geometry>
    requires o + 512 <= |v|
  {
    var sector, spc, total, fat := Field(v, o + 11, 2), v[o + 13], Field(v, o + 32, 4), Field(v, o + 36, 4);
    if spc == 0 || Field(v, o + 14, 2) != 8 || v[o + 16] != 2 || total < 8 + 2 * fat then None
    else Some(Shape(o, total, sector, spc, fat, v[o + 21]))
  }

  /** The clusters reached from `c`, at most `fuel` of them. */
  function Walk(v: seq<byte>, g: Geometry, c: nat, fuel: nat): Option<seq<nat>>
    requires Fits(v, g)
    decreases fuel
  {
    if fuel == 0 || !(2 <= c < g.entries && c < g.maxCluster + 2) then None
    else if Ent(v, g, 0, c) == EOC then Some([c])
    else match Walk(v, g, Ent(v, g, 0, c), fuel - 1)
      case None => None
      case Some(rest) => Some([c] + rest)
  }

  predicate InVolume(g: Geometry, chain: seq<nat>) {
    forall i :: 0 <= i < |chain| ==> 2 <= chain[i] < g.maxCluster + 2
  }

  /** The bytes of a chain of clusters. */
  function ChainBytes(v: seq<byte>, g: Geometry, chain: seq<nat>): seq<byte>
    requires Fits(v, g) && InVolume(g, chain)
  {
    if chain == [] then []
    else
      ClusterBytesInside(g, chain[0]);
      v[ClusterOff(g, chain[0])..ClusterOff(g, chain[0]) + g.clusterBytes] + ChainBytes(v, g, chain[1..])
  }

  lemma ClusterBytesInside(g: Geometry, c: nat)
    requires Placed(g) && 2 <= c < g.maxCluster + 2
    ensures ClusterOff(g, c) + g.clusterBytes <= g.base + g.size
  {
    ClusterInside(g, c + 1);
  }

  lemma {:induction false} WalkInVolume(v: seq<byte>, g: Geometry, c: nat, fuel: nat)
    requires Fits(v, g)
    ensures Walk(v, g, c, fuel).Some? ==> InVolume(g, Walk(v, g, c, fuel).value)
    decreases fuel
  {
    if Walk(v, g, c, fuel).Some? && Ent(v, g, 0, c) != EOC {
      WalkInVolume(v, g, Ent(v, g, 0, c), fuel - 1);
    }
  }

  function FirstCluster(entry: seq<byte>): nat
    requires |entry| == 32
  {
    Field(entry, 20, 2) * 0x1_0000 + Field(entry, 26, 2)
  }

  /** The file a directory entry describes. */
  function ReadEntry(v: seq<byte>, g: Geometry, entry: seq<byte>): Option<File>
    requires Fits(v, g) && |entry| == 32
  {
    var c := FirstCluster(entry);
    WalkInVolume(v, g, c, g.entries);
    match Walk(v, g, c, g.entries)
    case None => None
    case Some(chain) =>
      var bytes := ChainBytes(v, g, chain);
      var size := Field(entry, 28, 4);
      if |bytes| < size then None else Some(File(entry[..11], entry[11], bytes[..size]))
  }

  /** The root directory from slot `i` on. */
  function ListFrom(v: seq<byte>, g: Geometry, i: nat): Option<seq<File>>
    requires Fits(v, g)
    decreases Slots(g) - i
  {
    if Slots(g) <= i || Slot(v, g, i)[0] == 0 then Some([])
    else match ReadEntry(v, g, Slot(v, g, i))
      case None => None
      case Some(f) =>
        match ListFrom(v, g, i + 1)
        case None => None
        case Some(rest) => Some([f] + rest)
  }

  // ----- the boot sector -----

  /** The boot sector alone determines the layout createFAT32 chose. */
  lemma MountRecovers(v: seq<byte>, g: Geometry)
    requires Fits(v, g) && Sectored(g) && BootOk(v, g)
    ensures Mount(v, g.base) == Some(g)
  {
    hide BootOk;
    BootRead(v, g);
  }

  // ----- chains -----

  /** The consecutive numbers c, c+1, ..., c+n-1. */
  function Consecutive(c: nat, n: nat): (s: seq<nat>)
    ensures |s| == n && forall i :: 0 <= i < n ==> s[i] == c + i
  {
    seq(n, i requires 0 <= i => c + i)
  }

  /** Entries below the allocator's mark do not depend on later files. */
  lemma {:induction false} LinkPrefix(g: Geometry, files: seq<File>, n: nat, c: nat)
    requires g.clusterBytes > 0 && n <= |files| && c < NextFree(g, files[..n])
    ensures Link(g, files, c) == Link(g, files[..n], c)
    decreases |files|
  {
    if n == |files| {
      assert files[..n] == files;
    } else {
      NextFreePrefix(g, files, n);
      assert Init(files)[..n] == files[..n];
      NextFreePrefix(g, Init(files), n);
      LinkPrefix(g, Init(files), n, c);
    }
  }

  lemma {:induction false} NextFreePrefix(g: Geometry, files: seq<File>, n: nat)
    requires g.clusterBytes > 0 && n <= |files|
    ensures NextFree(g, files[..n]) + |files| - n <= NextFree(g, files)
    decreases |files|
  {
    if n == |files| {
      assert files[..n] == files;
    } else {
      assert Init(files)[..n] == files[..n];
      NextFreePrefix(g, Init(files), n);
    }
  }

  lemma PrefixStep(g: Geometry, files: seq<File>, i: nat)
    requires g.clusterBytes > 0 && i < |files|
    ensures Init(files[..i + 1]) == files[..i] && Last(files[..i + 1]) == files[i]
    ensures NextFree(g, files[..i + 1]) == NextFree(g, files[..i]) + Span(g, files[i])
  {
    assert files[..i + 1][..i] == files[..i];
  }

  /** Inside the clusters of file `i` each entry points to the next; the last one ends the chain. */
  lemma LinkInFile(g: Geometry, files: seq<File>, i: nat, c: nat)
    requires g.clusterBytes > 0 && i < |files|
    requires NextFree(g, files[..i]) <= c < NextFree(g, files[..i]) + Span(g, files[i])
    ensures Link(g, files, c) == if c + 1 < NextFree(g, files[..i]) + Span(g, files[i]) then c + 1 else EOC
  {
    PrefixStep(g, files, i);
    LinkPrefix(g, files, i + 1, c);
  }

  /** Entries that each name their successor are walked in order. */
  lemma {:induction false} WalkRun(v: seq<byte>, g: Geometry, c: nat, n: nat, fuel: nat)
    requires Fits(v, g) && 2 <= c && 0 < n <= fuel && c + n <= g.maxCluster
    requires forall d :: c <= d < c + n - 1 ==> Ent(v, g, 0, d) == d + 1
    requires Ent(v, g, 0, c + n - 1) == EOC
    ensures Walk(v, g, c, fuel) == Some(Consecutive(c, n))
    decreases n
  {
    hide Bytes.FromLe, FatLayout.ClusterOff;
    if n == 1 {
      assert Consecutive(c, 1) == [c];
    } else {
      assert Ent(v, g, 0, c) == c + 1;
      assert c + 1 != EOC;
      WalkRun(v, g, c + 1, n - 1, fuel - 1);
      assert Consecutive(c, n) == [c] + Consecutive(c + 1, n - 1);
    }
  }

  /** The clusters of file `i` are the consecutive ones its list position gives it. */
  lemma WalkFile(v: seq<byte>, g: Geometry, files: seq<File>, i: nat)
    requires Fits(v, g) && TableOk(v, g, 0, files) && Capacity(g, files) && i < |files|
    ensures NextFree(g, files[..i]) + Span(g, files[i]) <= NextFree(g, files)
    ensures var c := NextFree(g, files[..i]); Walk(v, g, c, g.entries) == Some(Consecutive(c, Span(g, files[i])))
  {
    var c, n := NextFree(g, files[..i]), Span(g, files[i]);
    PrefixStep(g, files, i);
    NextFreePrefix(g, files, i + 1);
    forall d | c <= d < c + n
      ensures Ent(v, g, 0, d) == if d + 1 < c + n then d + 1 else EOC
    {
      LinkInFile(g, files, i, d);
    }
    WalkRun(v, g, c, n, g.entries);
  }

  lemma SliceJoin(v: seq<byte>, a: nat, b: nat, c: nat)
    requires a <= b <= c <= |v|
    ensures v[a..b] + v[b..c] == v[a..c]
  {
  }

  /** A run of clusters reads as one contiguous slice. */
  lemma {:induction false} RunBytes(v: seq<byte>, g: Geometry, c: nat, n: nat)
    requires Fits(v, g) && 2 <= c && c + n <= g.maxCluster + 2
    ensures InVolume(g, Consecutive(c, n))
    ensures ClusterOff(g, c) <= ClusterOff(g, c + n) <= g.base + g.size
    ensures ChainBytes(v, g, Consecutive(c, n)) == v[ClusterOff(g, c)..ClusterOff(g, c + n)]
    decreases n
  {
    ClusterOffMono(g, c, c + n);
    ClusterInside(g, c + n);
    RunInVolume(g, c, n);
    if n > 0 {
      RunBytes(v, g, c + 1, n - 1);
      RunBytesStep(v, g, c, n);
    }
  }

  lemma RunBytesStep(v: seq<byte>, g: Geometry, c: nat, n: nat)
    requires Fits(v, g) && 2 <= c && 0 < n && c + n <= g.maxCluster + 2
    requires InVolume(g, Consecutive(c, n)) && InVolume(g, Consecutive(c + 1, n - 1))
    requires ClusterOff(g, c + 1) <= ClusterOff(g, c + n) <= g.base + g.size
    requires ChainBytes(v, g, Consecutive(c + 1, n - 1)) == v[ClusterOff(g, c + 1)..ClusterOff(g, c + n)]
    ensures ClusterOff(g, c) <= ClusterOff(g, c + n)
    ensures ChainBytes(v, g, Consecutive(c, n)) == v[ClusterOff(g, c)..ClusterOff(g, c + n)]
  {
    hide FatLayout.Placed, InVolume;
    ClusterOffMono(g, c, c + 1);
    RunTail(c, n);
    SliceJoin(v, ClusterOff(g, c), ClusterOff(g, c + 1), ClusterOff(g, c + n));
  }

  lemma RunInVolume(g: Geometry, c: nat, n: nat)
    requires 2 <= c && c + n <= g.maxCluster + 2
    ensures InVolume(g, Consecutive(c, n))
  {
  }

  lemma RunTail(c: nat, n: nat)
    requires n > 0
    ensures Consecutive(c, n) != [] && Consecutive(c, n)[0] == c && Consecutive(c, n)[1..] == Consecutive(c + 1, n - 1)
  {
  }

  // ----- directory entries -----

  lemma DirEntryFields(f: File, c: nat)
    requires FileOk(f) && c < U32
    ensures DirEntry(f, c)[..11] == f.name && DirEntry(f, c)[11] == f.attr
    ensures FirstCluster(DirEntry(f, c)) == c
    ensures Field(DirEntry(f, c), 28, 4) == |f.contents|
  {
    var s := DirEntry(f, c);
    assert s[20..22] == Le(c / 0x1_0000, 2);
    assert s[26..28] == Le(c % 0x1_0000, 2);
    assert s[28..32] == Le(|f.contents|, 4);
    Stored2(s, 20, c / 0x1_0000);
    Stored2(s, 26, c % 0x1_0000);
    Stored4(s, 28, |f.contents|);
  }

  lemma {:induction false} ListedAt(v: seq<byte>, g: Geometry, files: seq<File>, i: nat)
    requires Fits(v, g) && Listed(v, g, files) && i < |files|
    ensures |files| <= Slots(g) && FileOk(files[i])
    ensures Slot(v, g, i) == DirEntry(files[i], NextFree(g, files[..i]))
    decreases |files|
  {
    if i == |files| - 1 {
      assert Init(files) == files[..i];
    } else {
      ListedAt(v, g, Init(files), i);
      assert Init(files)[..i] == files[..i];
    }
  }

  lemma {:induction false} DataAtIndex(v: seq<byte>, g: Geometry, files: seq<File>, i: nat)
    requires Fits(v, g) && DataOk(v, g, files) && i < |files|
    ensures DataAt(v, g, NextFree(g, files[..i]), files[i])
    decreases |files|
  {
    if i == |files| - 1 {
      assert Init(files) == files[..i];
    } else {
      DataAtIndex(v, g, Init(files), i);
      assert Init(files)[..i] == files[..i];
    }
  }

  /** An entry whose chain is `n` consecutive clusters yields their first bytes. */
  lemma ReadsEntry(v: seq<byte>, g: Geometry, f: File, c: nat, n: nat, entry: seq<byte>)
    requires Fits(v, g) && 2 <= c && c + n <= g.maxCluster
    requires |entry| == 32 && entry[..11] == f.name && entry[11] == f.attr
    requires FirstCluster(entry) == c && Field(entry, 28, 4) == |f.contents|
    requires Walk(v, g, c, g.entries) == Some(Consecutive(c, n))
    requires ClusterOff(g, c) + |f.contents| <= ClusterOff(g, c + n) <= g.base + g.size
    requires v[ClusterOff(g, c)..ClusterOff(g, c + n)][..|f.contents|] == f.contents
    ensures ReadEntry(v, g, entry) == Some(f)
  {
    RunBytes(v, g, c, n);
    EntryOfChain(v, g, f, entry, Consecutive(c, n), v[ClusterOff(g, c)..ClusterOff(g, c + n)]);
  }

  lemma EntryOfChain(v: seq<byte>, g: Geometry, f: File, entry: seq<byte>, chain: seq<nat>, bytes: seq<byte>)
    requires Fits(v, g) && |entry| == 32 && entry[..11] == f.name && entry[11] == f.attr
    requires Field(entry, 28, 4) == |f.contents| <= |bytes|
    requires Walk(v, g, FirstCluster(entry), g.entries) == Some(chain) && InVolume(g, chain)
    requires ChainBytes(v, g, chain) == bytes && bytes[..|f.contents|] == f.contents
    ensures ReadEntry(v, g, entry) == Some(f)
  {
  }

  lemma ContentsFirst(v: seq<byte>, g: Geometry, c: nat, f: File)
    requires Fits(v, g) && c >= 2 && DataAt(v, g, c, f)
    requires ClusterOff(g, c + Span(g, f)) <= g.base + g.size
    ensures ClusterOff(g, c) + |f.contents| <= ClusterOff(g, c + Span(g, f))
    ensures v[ClusterOff(g, c)..ClusterOff(g, c + Span(g, f))][..|f.contents|] == f.contents
  {
    var o, n, e := ClusterOff(g, c), |f.contents|, ClusterOff(g, c + Span(g, f));
    var a := ClusterOff(g, c + Alloc(g, f));
    ClusterOffMono(g, c + Alloc(g, f), c + Span(g, f));
    assert v[o..o + n] == v[o..a][..n];
    assert v[o..o + n] == v[o..e][..n];
  }

  lemma ReadsStored(v: seq<byte>, g: Geometry, f: File, c: nat)
    requires Fits(v, g) && FileOk(f) && 2 <= c && c + Span(g, f) <= g.maxCluster
    requires Walk(v, g, c, g.entries) == Some(Consecutive(c, Span(g, f)))
    requires DataAt(v, g, c, f)
    ensures ReadEntry(v, g, DirEntry(f, c)) == Some(f)
  {
    ClusterInside(g, c + Span(g, f));
    ContentsFirst(v, g, c, f);
    DirEntryFields(f, c);
    ReadsEntry(v, g, f, c, Span(g, f), DirEntry(f, c));
  }

  /** File `i` reads back byte for byte through its directory entry and table chain. */
  lemma ReadsBack(v: seq<byte>, g: Geometry, files: seq<File>, i: nat)
    requires Fits(v, g) && Capacity(g, files) && TableOk(v, g, 0, files)
    requires Listed(v, g, files) && DataOk(v, g, files) && i < |files|
    ensures i < Slots(g) && ReadEntry(v, g, Slot(v, g, i)) == Some(files[i])
  {
    ListedAt(v, g, files, i);
    WalkFile(v, g, files, i);
    DataAtIndex(v, g, files, i);
    ReadsStored(v, g, files[i], NextFree(g, files[..i]));
  }

  /** A slot in use carries its file's name and reads back as the file. */
  lemma SlotReads(v: seq<byte>, g: Geometry, files: seq<File>, i: nat)
    requires Fits(v, g) && Capacity(g, files) && TableOk(v, g, 0, files)
    requires Listed(v, g, files) && DataOk(v, g, files) && i < |files|
    ensures i < Slots(g) && ReadEntry(v, g, Slot(v, g, i)) == Some(files[i])
    ensures files[i].name != [] && Slot(v, g, i)[0] == files[i].name[0] != 0
  {
    hide ReadEntry, TableOk, Capacity, DataOk, DirEntry;
    ReadsBack(v, g, files, i);
    ListedAt(v, g, files, i);
    NamedEntry(files[i], NextFree(g, files[..i]));
  }

  lemma {:induction false} ListsFrom(v: seq<byte>, g: Geometry, files: seq<File>, i: nat)
    requires Fits(v, g) && Capacity(g, files) && TableOk(v, g, 0, files)
    requires Listed(v, g, files) && Vacant(v, g, |files|) && DataOk(v, g, files) && i <= |files|
    ensures ListFrom(v, g, i) == Some(files[i..])
    decreases |files| - i
  {
    hide ReadEntry, TableOk, Capacity, DataOk, Listed, ClusterOff;
    if i == |files| {
      if i < Slots(g) {
        assert Slot(v, g, i) == Zeros(32);
      }
    } else {
      SlotReads(v, g, files, i);
      ListsFrom(v, g, files, i + 1);
      assert files[i..] == [files[i]] + files[i + 1..];
    }
  }

  lemma NamedEntry(f: File, c: nat)
    requires FileOk(f)
    ensures DirEntry(f, c)[0] == f.name[0] != 0
  {
  }

  /** The whole volume means its file list. */
  lemma Lists(v: seq<byte>, g: Geometry, files: seq<File>)
    requires RepInv(v, g, files) && Sectored(g)
    ensures Mount(v, g.base) == Some(g)
    ensures ListFrom(v, g, 0) == Some(files)
  {
    MountRecovers(v, g);
    ListsFrom(v, g, files, 0);
    assert files[0..] == files;
  }

  // ----- stamps -----

  datatype Date = Date(year: nat, month: nat, day: nat)

  datatype Time = Time(hour: nat, minute: nat, second: nat)

  /** A date of section 6.2 of the FAT specification. */
  function DateOf(d: nat): Date {
    Date(1980 + d / 512, d / 32 % 16, d % 32)
  }

  /** A time, in steps of two seconds. */
  function TimeOf(t: nat): Time {
    Time(t / 2048, t / 32 % 64, 2 * (t % 32))
  }

  /** Created, last used and last written on 21 February 1995 at 8:30:24, with 42 hundredths on creation. */
  predicate Stamped(s: seq<byte>)
    requires |s| == 32
  {
    && s[12] == 0 && s[13] == 42
    && TimeOf(Field(s, 14, 2)) == Time(8, 30, 24) && DateOf(Field(s, 16, 2)) == Date(1995, 2, 21)
    && DateOf(Field(s, 18, 2)) == Date(1995, 2, 21)
    && TimeOf(Field(s, 22, 2)) == Time(8, 30, 24) && DateOf(Field(s, 24, 2)) == Date(1995, 2, 21)
  }

  lemma EntryStamped(f: File, c: nat)
    requires FileOk(f)
    ensures Stamped(DirEntry(f, c))
  {
    hide Field;
    var s := DirEntry(f, c);
    assert s[14..16] == Le(0x43CC, 2) && s[16..18] == Le(0x1E55, 2) && s[18..20] == Le(0x1E55, 2);
    assert s[22..24] == Le(0x43CC, 2) && s[24..26] == Le(0x1E55, 2);
    Stored2(s, 14, 0x43CC);
    Stored2(s, 16, 0x1E55);
    Stored2(s, 18, 0x1E55);
    Stored2(s, 22, 0x43CC);
    Stored2(s, 24, 0x1E55);
  }

  /** Every entry of every reachable image is stamped so. */
  lemma EntriesStamped(v: seq<byte>, g: Geometry, files: seq<File>, i: nat)
    requires RepInv(v, g, files) && i < |files|
    ensures i < Slots(g) && Stamped(Slot(v, g, i))
  {
    hide BootOk, InfoOk, BackupOk, TableOk, Vacant, DataOk, DirEntry, Stamped;
    ListedAt(v, g, files, i);
    EntryStamped(files[i], NextFree(g, files[..i]));
  }

  // ----- the mark of a deleted file -----

  /** The first name byte by which section 6 of the FAT specification marks a free slot; the code knows only zero. */
  const DELETED: byte := 0xE5

  predicate Marked(f: File) {
    f.name != [] && f.name[0] == DELETED
  }

  /** The root directory from slot `i` on, for a reader that skips slots marked as deleted. */
  function ListUndeleted(v: seq<byte>, g: Geometry, i: nat): Option<seq<File>>
    requires Fits(v, g)
    decreases Slots(g) - i
  {
    if Slots(g) <= i || Slot(v, g, i)[0] == 0 then Some([])
    else if Slot(v, g, i)[0] == DELETED then ListUndeleted(v, g, i + 1)
    else match ReadEntry(v, g, Slot(v, g, i))
      case None => None
      case Some(f) =>
        match ListUndeleted(v, g, i + 1)
        case None => None
        case Some(rest) => Some([f] + rest)
  }

  function Unmarked(files: seq<File>): seq<File> {
    if files == [] then [] else (if Marked(files[0]) then [] else [files[0]]) + Unmarked(files[1..])
  }

  lemma {:induction false} UnmarkedAll(files: seq<File>)
    ensures |Unmarked(files)| <= |files|
    ensures Unmarked(files) == files <==> forall i :: 0 <= i < |files| ==> !Marked(files[i])
    decreases |files|
  {
    if files != [] {
      UnmarkedAll(files[1..]);
      assert files == [files[0]] + files[1..];
      if Marked(files[0]) {
        assert |Unmarked(files)| < |files|;
      } else {
        assert Unmarked(files)[1..] == Unmarked(files[1..]);
        assert forall i :: 1 <= i < |files| ==> files[i] == files[1..][i - 1];
      }
    }
  }

  lemma {:induction false} ListsUndeletedFrom(v: seq<byte>, g: Geometry, files: seq<File>, i: nat)
    requires Fits(v, g) && Capacity(g, files) && TableOk(v, g, 0, files)
    requires Listed(v, g, files) && Vacant(v, g, |files|) && DataOk(v, g, files) && i <= |files|
    ensures ListUndeleted(v, g, i) == Some(Unmarked(files[i..]))
    decreases |files| - i
  {
    hide ReadEntry, TableOk, Capacity, DataOk, Listed, ClusterOff;
    if i == |files| {
      if i < Slots(g) {
        assert Slot(v, g, i) == Zeros(32);
      }
    } else {
      SlotReads(v, g, files, i);
      ListsUndeletedFrom(v, g, files, i + 1);
      assert files[i..][1..] == files[i + 1..];
      var rest := Unmarked(files[i + 1..]);
      assert Unmarked(files[i..]) == if Marked(files[i]) then rest else [files[i]] + rest;
    }
  }

  /**
   * A reader that honours the deletion mark finds all files if and only if no
   * name starts with it; otherwise exactly the files so named are missing.
   */
  lemma ListsUndeleted(v: seq<byte>, g: Geometry, files: seq<File>)
    requires RepInv(v, g, files)
    ensures ListUndeleted(v, g, 0) == Some(Unmarked(files))
    ensures ListUndeleted(v, g, 0) == Some(files) <==> forall i :: 0 <= i < |files| ==> !Marked(files[i])
  {
    hide BootOk, InfoOk, BackupOk, TableOk, Listed, Vacant, DataOk, ListUndeleted;
    ListsUndeletedFrom(v, g, files, 0);
    UnmarkedAll(files);
    assert files[0..] == files;
  }
}
