/** ELF files as they are printed: the file header and the program headers of
    the System V gABI (chapters 4 and 5, 64-bit, least significant byte first). */
module Elf {
  import opened Bytes

  datatype FileHeader = FileHeader(ident: seq<byte>, kind: nat, machine: nat, version: nat, entry: nat, phoff: nat,
                                   shoff: nat, flags: nat, ehsize: nat, phentsize: nat, phnum: nat, shentsize: nat,
                                   shnum: nat, shstrndx: nat)

  datatype ProgramHeader = ProgramHeader(kind: nat, flags: nat, offset: nat, vaddr: nat, paddr: nat, filesz: nat,
                                         memsz: nat, align: nat)

  function PrintHeader(e: FileHeader): (s: seq<byte>)
    requires |e.ident| == 16
    ensures |s| == 64
  {
    e.ident + Le(e.kind, 2) + Le(e.machine, 2) + Le(e.version, 4) + Le(e.entry, 8) + Le(e.phoff, 8) + Le(e.shoff, 8)
    + Le(e.flags, 4) + Le(e.ehsize, 2) + Le(e.phentsize, 2) + Le(e.phnum, 2) + Le(e.shentsize, 2) + Le(e.shnum, 2)
    + Le(e.shstrndx, 2)
  }

  function PrintProgram(p: ProgramHeader): (s: seq<byte>)
    ensures |s| == 56
  {
    Le(p.kind, 4) + Le(p.flags, 4) + Le(p.offset, 8) + Le(p.vaddr, 8) + Le(p.paddr, 8) + Le(p.filesz, 8)
    + Le(p.memsz, 8) + Le(p.align, 8)
  }

  function PrintTable(ps: seq<ProgramHeader>): (s: seq<byte>)
    ensures |s| == 56 * |ps|
  {
    if ps == [] then [] else PrintProgram(ps[0]) + PrintTable(ps[1..])
  }

  /** The numbers fit their fields. */
  predicate ProgramFits(p: ProgramHeader) {
    && p.kind < U32 && p.offset < U32 * U32 && p.paddr < U32 * U32 && p.filesz < U32 * U32 && p.memsz < U32 * U32
  }

  /** The file starts with header `e` and holds the printed table `ps` where the header says. */
  ghost predicate IsElf(k: seq<byte>, e: FileHeader, ps: seq<ProgramHeader>) {
    && 64 <= |k| < U32 && |e.ident| == 16 && k[..64] == PrintHeader(e)
    && e.phnum == |ps| < 0x1_0000 && e.phoff + 56 * |ps| <= |k|
    && k[e.phoff..e.phoff + 56 * |ps|] == PrintTable(ps)
    && forall i :: 0 <= i < |ps| ==> ProgramFits(ps[i])
  }

  /** Bit 0 of the printed type is set. */
  predicate Loads(p: ProgramHeader) {
    PrintProgram(p)[0] % 2 == 1
  }

  lemma Middle(s: seq<byte>, a: seq<byte>, b: seq<byte>, c: seq<byte>, w: nat, v: nat)
    requires s == a + b + c && b == Le(v, w) && v < Pow256(w)
    ensures |a| + w <= |s| && Field(s, |a|, w) == v
  {
    assert s[|a|..|a| + w] == b;
    FieldStored(s, |a|, w, v);
  }

  lemma KindAt(p: ProgramHeader)
    requires ProgramFits(p)
    ensures Field(PrintProgram(p), 0, 4) == p.kind
    ensures Loads(p) <==> p.kind % 2 == 1
  {
    hide Le, Field;
    Pow256Values();
    var tail := Le(p.flags, 4) + Le(p.offset, 8) + Le(p.vaddr, 8) + Le(p.paddr, 8) + Le(p.filesz, 8)
      + Le(p.memsz, 8) + Le(p.align, 8);
    assert PrintProgram(p) == [] + Le(p.kind, 4) + tail;
    Middle(PrintProgram(p), [], Le(p.kind, 4), tail, 4, p.kind);
    LeTail(p.kind, 4);
    assert PrintProgram(p)[0] == Le(p.kind, 4)[0];
  }

  lemma OffsetAt(p: ProgramHeader)
    requires ProgramFits(p)
    ensures Field(PrintProgram(p), 8, 8) == p.offset
  {
    hide Le, Field;
    Pow256Values();
    var head := Le(p.kind, 4) + Le(p.flags, 4);
    var tail := Le(p.vaddr, 8) + Le(p.paddr, 8) + Le(p.filesz, 8) + Le(p.memsz, 8) + Le(p.align, 8);
    assert PrintProgram(p) == head + Le(p.offset, 8) + tail;
    Middle(PrintProgram(p), head, Le(p.offset, 8), tail, 8, p.offset);
  }

  lemma AddressAt(p: ProgramHeader)
    requires ProgramFits(p)
    ensures Field(PrintProgram(p), 24, 8) == p.paddr
  {
    hide Le, Field;
    Pow256Values();
    var head := Le(p.kind, 4) + Le(p.flags, 4) + Le(p.offset, 8) + Le(p.vaddr, 8);
    var tail := Le(p.filesz, 8) + Le(p.memsz, 8) + Le(p.align, 8);
    assert PrintProgram(p) == head + Le(p.paddr, 8) + tail;
    Middle(PrintProgram(p), head, Le(p.paddr, 8), tail, 8, p.paddr);
  }

  lemma SizesAt(p: ProgramHeader)
    requires ProgramFits(p)
    ensures Field(PrintProgram(p), 32, 8) == p.filesz && Field(PrintProgram(p), 40, 8) == p.memsz
  {
    hide Le, Field;
    Pow256Values();
    var head := Le(p.kind, 4) + Le(p.flags, 4) + Le(p.offset, 8) + Le(p.vaddr, 8) + Le(p.paddr, 8);
    assert PrintProgram(p) == head + Le(p.filesz, 8) + (Le(p.memsz, 8) + Le(p.align, 8));
    Middle(PrintProgram(p), head, Le(p.filesz, 8), Le(p.memsz, 8) + Le(p.align, 8), 8, p.filesz);
    assert PrintProgram(p) == (head + Le(p.filesz, 8)) + Le(p.memsz, 8) + Le(p.align, 8);
    Middle(PrintProgram(p), head + Le(p.filesz, 8), Le(p.memsz, 8), Le(p.align, 8), 8, p.memsz);
  }

  lemma HeaderAtFields(e: FileHeader)
    requires |e.ident| == 16 && e.phoff < U32 * U32 && e.phnum < 0x1_0000
    ensures Field(PrintHeader(e), 32, 8) == e.phoff && Field(PrintHeader(e), 56, 2) == e.phnum
  {
    hide Le, Field;
    Pow256Values();
    var head := e.ident + Le(e.kind, 2) + Le(e.machine, 2) + Le(e.version, 4) + Le(e.entry, 8);
    var mid := Le(e.shoff, 8) + Le(e.flags, 4) + Le(e.ehsize, 2) + Le(e.phentsize, 2);
    var tail := Le(e.shentsize, 2) + Le(e.shnum, 2) + Le(e.shstrndx, 2);
    assert PrintHeader(e) == head + Le(e.phoff, 8) + (mid + Le(e.phnum, 2) + tail);
    Middle(PrintHeader(e), head, Le(e.phoff, 8), mid + Le(e.phnum, 2) + tail, 8, e.phoff);
    assert PrintHeader(e) == (head + Le(e.phoff, 8) + mid) + Le(e.phnum, 2) + tail;
    Middle(PrintHeader(e), head + Le(e.phoff, 8) + mid, Le(e.phnum, 2), tail, 2, e.phnum);
  }

  lemma {:induction false} TableAt(ps: seq<ProgramHeader>, i: nat)
    requires i < |ps|
    ensures PrintTable(ps)[56 * i..56 * i + 56] == PrintProgram(ps[i])
    decreases |ps|
  {
    hide PrintProgram;
    var t := PrintTable(ps);
    assert t[56..] == PrintTable(ps[1..]);
    if i > 0 {
      TableAt(ps[1..], i - 1);
      SliceOfSlice(t, 56, |t|, 56 * (i - 1), 56 * (i - 1) + 56);
      assert t[56..] == t[56..|t|];
    }
  }
}
