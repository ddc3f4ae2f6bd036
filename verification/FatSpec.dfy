/** FAT32Copyin seen from outside: what one call does to the list of files,
    and what follows for every run of calls. */
module FatSpec {
  import opened Arith
  import opened Wrappers
  import opened Bytes
  import opened FatLayout
  import opened FatImage
  import opened FatSteps
  import opened FatSuper

  /**
   * The kernel's side of a call: the size fstat reports (or failure), whether
   * lseek succeeds, and the bytes read delivers (or failure).
   */
  datatype Fd = Fd(stat: Option<nat>, seekOk: bool, data: Option<seq<byte>>) {
    /** The size as a 32-bit variable keeps it. */
    function Size(): nat
      requires stat.Some?
    {
      stat.value % U32
    }

    /** read never delivers more than was asked for. */
    ghost predicate Honest() {
      stat.Some? && data.Some? ==> |data.value| <= Size()
    }

    predicate Delivers()
      requires stat.Some?
    {
      seekOk && data.Some? && |data.value| == Size()
    }
  }

  /** A call returns a start sector (0 for failure) or dies in an assertion. */
  datatype Outcome = Returned(sector: nat) | Aborted

  // ----- names -----

  const DOT: byte := 46

  function Prefix(name: seq<byte>): seq<byte> {
    if name == [] || name[0] == DOT then [] else [name[0]] + Prefix(name[1..])
  }

  lemma {:induction false} PrefixIsPrefix(name: seq<byte>)
    ensures |Prefix(name)| <= |name| && name[..|Prefix(name)|] == Prefix(name)
    ensures DOT !in Prefix(name)
    ensures |Prefix(name)| < |name| ==> name[|Prefix(name)|] == DOT
  {
    if name != [] && name[0] != DOT {
      PrefixIsPrefix(name[1..]);
    }
  }

  /** The characters from the first dot on, the dot included. */
  function Suffix(name: seq<byte>): seq<byte> {
    PrefixIsPrefix(name);
    name[|Prefix(name)|..]
  }

  /** Names that stay inside the 11-byte field and do not look like a free slot. */
  predicate LegalName(name: seq<byte>) {
    0 !in name && 1 <= |Prefix(name)| <= 11 && |Suffix(name)| <= 3
  }

  function ShortName(name: seq<byte>): (s: seq<byte>)
    requires LegalName(name)
    ensures |s| == 11 && s[0] != 0
  {
    PrefixIsPrefix(name);
    Splice(Splice(Zeros(11), 0, Prefix(name)), 8, Suffix(name))
  }

  lemma DotFree(name: seq<byte>)
    requires LegalName(name) && DOT !in name
    ensures |name| <= 11
    ensures forall i :: 0 <= i < 11 ==> ShortName(name)[i] == if i < |name| then name[i] else 0
    ensures forall i :: 0 <= i < |name| ==> name[i] != 0
  {
    PrefixIsPrefix(name);
    assert Prefix(name) == name;
  }

  /** Dot-free names are told apart by their field. */
  lemma ShortNameInjective(a: seq<byte>, b: seq<byte>)
    requires LegalName(a) && LegalName(b) && DOT !in a && DOT !in b
    requires ShortName(a) == ShortName(b)
    ensures a == b
  {
    DotFree(a);
    DotFree(b);
    var s := ShortName(a);
    var m := if |a| < |b| then |a| else |b|;
    assert m < 11 ==> ((s[m] != 0 <==> m < |a|) && (s[m] != 0 <==> m < |b|));
    forall i | 0 <= i < m
      ensures a[i] == b[i]
    {
      assert s[i] == a[i] == b[i];
    }
  }

  lemma {:induction false} PrefixIs(p: seq<byte>, e: seq<byte>)
    requires DOT !in p
    ensures Prefix(p + [DOT] + e) == p
    decreases |p|
  {
    var s := p + [DOT] + e;
    if p != [] {
      assert s[1..] == p[1..] + [DOT] + e;
      PrefixIs(p[1..], e);
    }
  }

  /**
   * A dotted name keeps its dot: the name goes to the front of the field, and
   * the dot with what follows to bytes 8 to 10, over whatever stood there.
   */
  lemma DottedName(p: seq<byte>, e: seq<byte>)
    requires DOT !in p && LegalName(p + [DOT] + e)
    ensures |p| <= 11 && |e| <= 2
    ensures forall i :: 0 <= i < 11 ==>
      ShortName(p + [DOT] + e)[i] ==
        if i == 8 then DOT else if 9 <= i < 9 + |e| then e[i - 9] else if i < |p| then p[i] else 0
  {
    var s := p + [DOT] + e;
    PrefixIs(p, e);
    assert Suffix(s) == [DOT] + e;
  }

  // ----- one call -----

  function StartSector(g: Geometry, files: seq<File>): nat
    requires g.clusterBytes > 0
  {
    SectorOf(g, NextFree(g, files))
  }

  /** `maxFileSize`: the bytes of the clusters still free. */
  function MaxFileSize(g: Geometry, files: seq<File>): nat
    requires g.clusterBytes > 0 && NextFree(g, files) <= g.maxCluster
  {
    g.clusterBytes * (g.maxCluster - NextFree(g, files))
  }

  lemma FullMeansZero(g: Geometry, files: seq<File>)
    requires g.clusterBytes > 0 && NextFree(g, files) <= g.maxCluster
    ensures MaxFileSize(g, files) == 0 <==> NextFree(g, files) == g.maxCluster
  {
    ProductZero(g.clusterBytes, g.maxCluster - NextFree(g, files));
  }

  function Copied(g: Geometry, files: seq<File>, fd: Fd, name: seq<byte>, attr: nat): (Outcome, seq<File>)
    requires g.clusterBytes > 0 && LegalName(name)
  {
    var next := NextFree(g, files);
    if fd.stat.None? then (Returned(0), files)
    else if g.maxCluster < next then (Aborted, files)
    else if MaxFileSize(g, files) < fd.Size() then (Returned(0), files)
    else if |files| == Slots(g) then (Returned(0), files)
    else if !fd.Delivers() then (Returned(0), files)
    else if next == g.maxCluster then (Aborted, files)
    else (Returned(StartSector(g, files)), files + [File(ShortName(name), attr % 256, fd.data.value)])
  }

  /** A file fits in `n` clusters exactly when its size does. */
  lemma FitsIff(size: nat, cb: nat, n: nat)
    requires cb > 0
    ensures CDiv(size, cb) <= n <==> size <= cb * n
  {
    CDivBounds(size, cb);
    var q := CDiv(size, cb);
    if q <= n {
      MulMono(q, n, cb);
    } else {
      MulMono(n + 1, q, cb);
      assert (n + 1) * cb == n * cb + cb;
    }
  }

  lemma EmptyIff(size: nat, cb: nat)
    requires cb > 0
    ensures CDiv(size, cb) == 0 <==> size == 0
  {
    CDivBounds(size, cb);
  }

  /** The assertions of FAT32Copyin fire in exactly two situations. */
  lemma AbortedIff(g: Geometry, files: seq<File>, fd: Fd, name: seq<byte>, attr: nat)
    requires Placed(g) && LegalName(name) && |files| <= Slots(g)
    ensures Copied(g, files, fd, name, attr).0.Aborted? <==>
      && fd.stat.Some?
      && (|| g.maxCluster < NextFree(g, files)
          || (&& g.maxCluster == NextFree(g, files) && fd.Size() == 0
              && |files| < Slots(g) && fd.Delivers()))
  {
    if NextFree(g, files) <= g.maxCluster {
      FullMeansZero(g, files);
    }
  }

  /** The clusters of the file fit below the allocator's bound, at least one number is left, and a root slot is free. */
  predicate Room(g: Geometry, files: seq<File>, size: nat)
    requires g.clusterBytes > 0
  {
    && |files| < Slots(g) && NextFree(g, files) < g.maxCluster
    && CDiv(size, g.clusterBytes) <= g.maxCluster - NextFree(g, files)
  }

  /**
   * Exact acceptance, of files of any size: a call returns a sector exactly
   * when the kernel delivers the whole file and there is room for it. The file
   * then takes as many cluster numbers as it fills clusters, an empty one one.
   */
  lemma AcceptedIff(g: Geometry, files: seq<File>, fd: Fd, name: seq<byte>, attr: nat)
    requires Placed(g) && 8 <= g.dataSector && LegalName(name) && |files| <= Slots(g)
    ensures var (out, files') := Copied(g, files, fd, name, attr);
      && (out.Returned? && out.sector > 0 <==> fd.stat.Some? && fd.Delivers() && Room(g, files, fd.Size()))
      && (out.Returned? && out.sector > 0 ==>
            var n := CDiv(fd.Size(), g.clusterBytes);
            NextFree(g, files') == NextFree(g, files) + if n > 1 then n else 1)
  {
    StartsPastData(g, files);
    if fd.stat.Some? && NextFree(g, files) <= g.maxCluster {
      FullMeansZero(g, files);
      RoomIff(g, files, fd.Size());
      if fd.Delivers() {
        Extended(g, files, File(ShortName(name), attr % 256, fd.data.value));
      }
    }
  }

  /** With working I/O a non-empty file is refused for lack of room only, never with an abort. */
  lemma NonemptyNeverAborts(g: Geometry, files: seq<File>, fd: Fd, name: seq<byte>, attr: nat)
    requires Placed(g) && LegalName(name) && |files| <= Slots(g) && NextFree(g, files) <= g.maxCluster
    requires fd.stat.Some? && fd.Size() > 0
    ensures Copied(g, files, fd, name, attr).0.Returned?
  {
    AbortedIff(g, files, fd, name, attr);
  }

  lemma RoomIff(g: Geometry, files: seq<File>, size: nat)
    requires g.clusterBytes > 0 && NextFree(g, files) <= g.maxCluster
    ensures CDiv(size, g.clusterBytes) <= g.maxCluster - NextFree(g, files) <==> size <= MaxFileSize(g, files)
  {
    FitsIff(size, g.clusterBytes, g.maxCluster - NextFree(g, files));
  }

  lemma StartsPastData(g: Geometry, files: seq<File>)
    requires g.clusterBytes > 0 && 8 <= g.dataSector
    ensures StartSector(g, files) >= 8
  {
  }

  /** A call changes the list exactly when it returns a sector, and then by one file at the end. */
  lemma AppendsOne(g: Geometry, files: seq<File>, fd: Fd, name: seq<byte>, attr: nat)
    requires g.clusterBytes > 0 && 8 <= g.dataSector && LegalName(name)
    ensures var (out, files') := Copied(g, files, fd, name, attr);
      if out.Returned? && out.sector > 0
      then out.sector == StartSector(g, files) && fd.stat.Some? && fd.Delivers()
        && files' == files + [File(ShortName(name), attr % 256, fd.data.value)]
      else files' == files
  {
    StartsPastData(g, files);
  }

  /** The stored contents are the whole file exactly when its size fits 32 bits. */
  lemma StoredWhole(g: Geometry, files: seq<File>, contents: seq<byte>, name: seq<byte>, attr: nat)
    requires g.clusterBytes > 0 && LegalName(name)
    requires var fd := Fd(Some(|contents|), true, Some(contents[..|contents| % U32]));
      Copied(g, files, fd, name, attr).0.Returned? && Copied(g, files, fd, name, attr).0.sector > 0
    ensures var fd := Fd(Some(|contents|), true, Some(contents[..|contents| % U32]));
      Last(Copied(g, files, fd, name, attr).1).contents == contents <==> |contents| < U32
  {
    var n := |contents|;
    assert n < U32 ==> n % U32 == n && contents[..n] == contents;
    assert n >= U32 ==> |contents[..n % U32]| < n;
  }

  // ----- runs -----

  datatype Op = Op(fd: Fd, name: seq<byte>, attr: nat)

  predicate Legal(ops: seq<Op>) {
    forall i :: 0 <= i < |ops| ==> LegalName(ops[i].name)
  }

  /** The files after a run of calls that starts from `files`. */
  function After(g: Geometry, files: seq<File>, ops: seq<Op>): seq<File>
    requires g.clusterBytes > 0 && Legal(ops)
    decreases |ops|
  {
    if ops == [] then files
    else After(g, Copied(g, files, ops[0].fd, ops[0].name, ops[0].attr).1, ops[1..])
  }

  /** Does any call of the run abort? */
  predicate Dies(g: Geometry, files: seq<File>, ops: seq<Op>)
    requires g.clusterBytes > 0 && Legal(ops)
    decreases |ops|
  {
    ops != [] &&
    var (out, files') := Copied(g, files, ops[0].fd, ops[0].name, ops[0].attr);
    out.Aborted? || Dies(g, files', ops[1..])
  }

  predicate Nonempty(ops: seq<Op>) {
    forall i :: 0 <= i < |ops| && ops[i].fd.stat.Some? ==> ops[i].fd.Size() > 0
  }

  lemma CopiedCapacity(g: Geometry, files: seq<File>, op: Op)
    requires Placed(g) && LegalName(op.name) && NextFree(g, files) <= g.maxCluster && |files| <= Slots(g)
    ensures var files' := Copied(g, files, op.fd, op.name, op.attr).1;
      NextFree(g, files') <= g.maxCluster && |files'| <= Slots(g)
  {
    var (out, files') := Copied(g, files, op.fd, op.name, op.attr);
    if files' != files {
      Extended(g, files, Last(files'));
      RoomIff(g, files, op.fd.Size());
      assert files' == files + [Last(files')];
    }
  }

  /**
   * No assertion fires on any run of non-empty files over a volume with at
   * least three clusters, and the allocator never passes its bound.
   */
  lemma {:induction false} RunsSafely(g: Geometry, files: seq<File>, ops: seq<Op>)
    requires Placed(g) && Legal(ops) && NextFree(g, files) <= g.maxCluster && |files| <= Slots(g)
    ensures Nonempty(ops) ==> !Dies(g, files, ops)
    ensures NextFree(g, After(g, files, ops)) <= g.maxCluster && |After(g, files, ops)| <= Slots(g)
    ensures files <= After(g, files, ops)
    decreases |ops|
  {
    if ops != [] {
      var op := ops[0];
      AbortedIff(g, files, op.fd, op.name, op.attr);
      CopiedCapacity(g, files, op);
      RunsSafely(g, Copied(g, files, op.fd, op.name, op.attr).1, ops[1..]);
    }
  }

  /** A formatted volume is safe for every run of non-empty files exactly when the allocator's bound is at least 3. */
  lemma SafeIff(g: Geometry)
    requires Placed(g)
    ensures (forall ops | Legal(ops) && Nonempty(ops) :: !Dies(g, [], ops)) <==> 3 <= g.maxCluster
  {
    if 3 <= g.maxCluster {
      forall ops | Legal(ops) && Nonempty(ops)
        ensures !Dies(g, [], ops)
      {
        RunsSafely(g, [], ops);
      }
    } else {
      var op := Op(Fd(Some(1), true, Some([0])), [97], 0);
      OneLetter(97);
      AbortedIff(g, [], op.fd, op.name, op.attr);
      assert Legal([op]) && Nonempty([op]) && Dies(g, [], [op]);
    }
  }

  lemma OneLetter(b: byte)
    requires b != 0 && b != DOT
    ensures LegalName([b])
  {
    assert [b][1..] == [] && Prefix([]) == [];
    assert Prefix([b]) == [b];
  }

  function Empties(files: seq<File>): nat {
    if files == [] then 0 else Empties(Init(files)) + if Last(files).contents == [] then 1 else 0
  }

  /**
   * Conservation: cluster numbers handed out are the clusters holding data plus
   * one for each empty file. With InfoOk this makes freeCount + nextFree equal
   * to its value after formatting plus the number of empty files.
   */
  lemma {:induction false} Conservation(g: Geometry, files: seq<File>)
    requires g.clusterBytes > 0
    ensures NextFree(g, files) == 3 + Used(g, files) + Empties(files)
    decreases |files|
  {
    if files != [] {
      Conservation(g, Init(files));
      EmptyIff(|Last(files).contents|, g.clusterBytes);
    }
  }

  lemma InfoConserved(v: seq<byte>, g: Geometry, files: seq<File>)
    requires Fits(v, g) && InfoOk(v, g, files)
    ensures var o := g.base + g.sector; Field(v, o + 488, 4) + Field(v, o + 492, 4) == 2 * g.entries + Empties(files)
  {
    Conservation(g, files);
  }

  /** An accepted configuration may still be too small for any file: the first copy aborts. */
  lemma TooSmallForFiles(base: nat, fd: Fd, name: seq<byte>, attr: nat)
    requires LegalName(name) && fd.stat.Some?
    ensures var cfg := Config(16, 512, 4, true);
      Formats(cfg) && Layout(cfg, base).maxCluster == 1 && Copied(Layout(cfg, base), [], fd, name, attr).0.Aborted?
  {
    RoomForRoot(Config(16, 512, 4, true));
  }

  /** The other abort is reachable too: on this volume the first empty file dies in the table update. */
  lemma EmptyFileAborts(base: nat, name: seq<byte>, attr: nat)
    requires LegalName(name)
    ensures var cfg := Config(16, 512, 2, true); Formats(cfg) && 3 <= Layout(cfg, base).maxCluster
    ensures var cfg := Config(16, 512, 2, true);
      Copied(Layout(cfg, base), [], Fd(Some(0), true, Some([])), name, attr).0.Aborted?
  {
    var cfg := Config(16, 512, 2, true);
    RoomForRoot(cfg);
    var g := Layout(cfg, base);
    LayoutIsSound(cfg, base);
    assert g.maxCluster == 3;
    AbortedIff(g, [], Fd(Some(0), true, Some([])), name, attr);
  }
}
