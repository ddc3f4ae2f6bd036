/** A generated disk seen by software that knows only section 5.3 of the UEFI
    specification: header checks, entry decoding, and damage detection. */
module GptCheck {
  import opened Bytes
  import opened Crc32
  import opened CrcLaws
  import opened Gpt

  // ----- the reader -----

  /** A header with its checksum field zeroed. */
  function Body(d: seq<byte>, o: nat): (s: seq<byte>)
    requires o + 92 <= |d|
    ensures |s| == 92
    ensures forall i :: 0 <= i < 92 ==> s[i] == if 16 <= i < 20 then 0 else d[o + i]
  {
    Splice(d[o..o + 92], 16, Zeros(4))
  }

  /** The header at byte `o` is intact and claims to sit at `lba` (section 5.3.2). */
  predicate HeaderIntact(d: seq<byte>, o: nat, lba: nat)
    requires o + 92 <= |d|
  {
    && d[o..o + 8] == SIGNATURE
    && Field(d, o + 12, 4) == 92
    && Field(d, o + 20, 4) == 0
    && Field(d, o + 24, 8) == lba
    && Field(d, o + 16, 4) == Number(Crc(Body(d, o)))
  }

  /** Bounds of the entry array that the header at `o` points to. */
  function ArrayStart(d: seq<byte>, o: nat): nat
    requires o + 92 <= |d|
  {
    BLOCK * Field(d, o + 72, 8)
  }

  function ArrayBytes(d: seq<byte>, o: nat): nat
    requires o + 92 <= |d|
  {
    Field(d, o + 80, 4) * Field(d, o + 84, 4)
  }

  /** The array the header at `o` points to lies on the disk and has the recorded checksum (section 5.3.3). */
  predicate ArrayIntact(d: seq<byte>, o: nat)
    requires o + 92 <= |d|
  {
    var a, n := ArrayStart(d, o), ArrayBytes(d, o);
    a + n <= |d| && Field(d, o + 88, 4) == Number(Crc(d[a..a + n]))
  }

  predicate Intact(d: seq<byte>, lba: nat) {
    BLOCK * lba + 92 <= |d| && HeaderIntact(d, BLOCK * lba, lba) && ArrayIntact(d, BLOCK * lba)
  }

  /** The header at `lba` verifies and leads to `n` verified entries behind sector 2. */
  predicate Vouches(d: seq<byte>, lba: nat, n: nat) {
    Intact(d, lba) && ArrayStart(d, BLOCK * lba) == EntryAt(0) && ArrayBytes(d, BLOCK * lba) == 128 * n
  }

  datatype Partition =
    Partition(partType: seq<byte>, partId: seq<byte>, first: nat, last: int, attrs: nat, name: seq<nat>)

  /** The 16-bit characters from `k` on, up to a zero one. */
  function Units(s: seq<byte>, k: nat): (u: seq<nat>)
    requires |s| == 128 && k <= 36
    decreases 36 - k
  {
    if k == 36 || Field(s, 56 + 2 * k, 2) == 0 then [] else [Field(s, 56 + 2 * k, 2)] + Units(s, k + 1)
  }

  function Decode(s: seq<byte>): Partition
    requires |s| == 128
  {
    Partition(s[..16], s[16..32], Field(s, 32, 8), Field(s, 40, 8), Field(s, 48, 8), Units(s, 0))
  }

  /** The other fields of a header (section 5.3.2): revision, the other header, the usable blocks, the disk's GUID. */
  predicate HeaderTells(s: seq<byte>, other: nat, first: nat, last: nat, id: seq<byte>)
    requires |s| == 92
  {
    && Field(s, 8, 4) == 0x1_0000 && Field(s, 32, 8) == other && Field(s, 40, 8) == first && Field(s, 48, 8) == last
    && s[56..72] == id
  }

  /** The header at `lba` tells so. */
  predicate Describes(d: seq<byte>, lba: nat, other: nat, first: nat, last: nat, id: seq<byte>) {
    BLOCK * lba + 92 <= |d| && HeaderTells(d[BLOCK * lba..BLOCK * lba + 92], other, first, last, id)
  }

  /** Both headers name each other and agree on the usable blocks and the disk. */
  predicate HeadersAgree(d: seq<byte>, nBlock: nat, first: nat, id: seq<byte>)
    requires nBlock >= 4
  {
    Describes(d, 1, nBlock - 1, first, nBlock - 2, id) && Describes(d, nBlock - 1, 1, first, nBlock - 2, id)
  }

  /** AlternateLBA of the header at `lba`. */
  function Alternate(d: seq<byte>, lba: nat): nat
    requires BLOCK * lba + 92 <= |d|
  {
    Field(d, BLOCK * lba + 32, 8)
  }

  /**
   * The protective MBR behind its boot code (section 5.2.3), `r` being bytes 440
   * to 511: one record of type 0xEE from block 1 on, and the signature.
   */
  predicate MbrTells(r: seq<byte>, nBlock: nat)
    requires |r| == 72
  {
    && r[..6] == Zeros(6) && r[6] == 0x80 && r[7..10] == [0, 2, 0] && r[10] == 0xEE
    && Field(r, 11, 3) == Smaller(BLOCK * nBlock % U32, 0xFF_FFFF) && Field(r, 14, 4) == 1
    && Field(r, 18, 4) == (if nBlock >= 0xFFFF_FFFF then 0xFFFF_FFFF else nBlock - 1)
    && r[22..70] == Zeros(48) && r[70..] == [0x55, 0xAA]
  }

  function Smaller(a: int, b: int): int {
    if a < b then a else b
  }

  // ----- entries decode to what was asked for -----

  /** The partition a request stands for, once it has a start. */
  function Served(r: Request, start: nat): Partition {
    Partition(r.partType, r.partId, start, start + r.volume - 1, 5, r.name)
  }

  lemma TwoBytes(s: seq<byte>, o: nat)
    requires o + 2 <= |s|
    ensures Field(s, o, 2) == s[o] as int + 256 * (s[o + 1] as int)
  {
    var t := s[o..o + 2];
    assert t[1..] == [s[o + 1]] && t[1..][1..] == [];
    assert FromLe([]) == 0;
    assert FromLe(t[1..]) == s[o + 1];
  }

  lemma NameUnit(r: Request, start: nat, k: nat)
    requires RequestOk(r) && start + r.volume > 0 && k < 36
    ensures Field(EntryBytes(r, start), 56 + 2 * k, 2) == if k < |r.name| then r.name[k] else 0
  {
    TwoBytes(EntryBytes(r, start), 56 + 2 * k);
    assert (56 + 2 * k) % 2 == 0 && (57 + 2 * k) % 2 == 1 && (56 + 2 * k - 56) / 2 == k;
  }

  lemma {:induction false} NameUnits(r: Request, start: nat, k: nat)
    requires RequestOk(r) && start + r.volume > 0 && k <= |r.name|
    ensures Units(EntryBytes(r, start), k) == r.name[k..]
    decreases |r.name| - k
  {
    hide Field;
    if k < 36 {
      NameUnit(r, start, k);
      if k < |r.name| {
        NameUnits(r, start, k + 1);
      }
    }
  }

  /** The entry of a partition decodes to its start, last sector, attributes, GUIDs and name. */
  lemma EntryDecodes(r: Request, start: nat)
    requires RequestOk(r) && start + r.volume > 0 && start + r.volume <= U32 * U32 && start < U32 * U32
    ensures Decode(EntryBytes(r, start)) == Served(r, start)
  {
    var s := EntryBytes(r, start);
    Pow256Values();
    assert s[..16] == r.partType && s[16..32] == r.partId;
    assert s[32..40] == Le(start, 8) && s[40..48] == Le(start + r.volume - 1, 8) && s[48..56] == Le(5, 8);
    FieldStored(s, 32, 8, start);
    FieldStored(s, 40, 8, start + r.volume - 1);
    FieldStored(s, 48, 8, 5);
    NameUnits(r, start, 0);
  }

  // ----- both headers of a generated disk verify -----

  lemma HeaderFields(h: Header, i: nat, w: nat, v: nat)
    requires |h.diskId| == 16 && i + w <= 92 && v < Pow256(w)
    requires forall k :: 0 <= k < w ==> HeaderByte(h, i + k) == Le(v, w)[k]
    ensures Field(HeaderBytes(h), i, w) == v
  {
    assert HeaderBytes(h)[i..i + w] == Le(v, w);
    FieldStored(HeaderBytes(h), i, w, v);
  }

  /** A field of a structure is the field of the disk that holds it. */
  lemma FieldInside(d: seq<byte>, o: nat, n: nat, i: nat, w: nat)
    requires o + n <= |d| && i + w <= n
    ensures Field(d, o + i, w) == Field(d[o..o + n], i, w)
  {
    SliceOfSlice(d, o, o + n, i, i + w);
  }

  lemma Unsealed(h: Header)
    requires |h.diskId| == 16
    ensures Splice(HeaderBytes(h), 16, Zeros(4)) == HeaderBytes(h.(crc := 0))
  {
    LeZero(4);
  }

  lemma SealedFields(h: Header)
    requires |h.diskId| == 16 && h.crc < U32 && h.thisLba < U32 * U32
    ensures HeaderBytes(h)[0..8] == SIGNATURE && Field(HeaderBytes(h), 12, 4) == 92
    ensures Field(HeaderBytes(h), 16, 4) == h.crc
    ensures Field(HeaderBytes(h), 20, 4) == 0 && Field(HeaderBytes(h), 24, 8) == h.thisLba
  {
    hide Field;
    Pow256Values();
    LeZero(4);
    HeaderFields(h, 12, 4, 92);
    HeaderFields(h, 16, 4, h.crc);
    HeaderFields(h, 20, 4, 0);
    HeaderFields(h, 24, 8, h.thisLba);
  }

  lemma TellingFields(h: Header)
    requires |h.diskId| == 16 && h.alternate < U32 * U32 && h.firstUsable < U32 * U32 && h.lastUsable < U32 * U32
    ensures HeaderTells(HeaderBytes(h), h.alternate, h.firstUsable, h.lastUsable, h.diskId)
  {
    hide Field;
    Pow256Values();
    HeaderFields(h, 8, 4, 0x1_0000);
    HeaderFields(h, 32, 8, h.alternate);
    HeaderFields(h, 40, 8, h.firstUsable);
    HeaderFields(h, 48, 8, h.lastUsable);
    assert HeaderBytes(h)[56..72] == h.diskId;
  }

  lemma HeadersTell(d: seq<byte>, nBlock: nat, h: Header, served: nat)
    requires HeadersWritten(d, nBlock, h, served) && nBlock < U32 * U32
    requires h.alternate == nBlock - 1 && h.firstUsable < U32 * U32 && h.lastUsable == nBlock - 2
    ensures HeadersAgree(d, nBlock, h.firstUsable, h.diskId)
  {
    hide HeaderTells, HeaderBytes, Number, Crc32.Crc;
    TellingFields(Sealed(h));
    TellingFields(Sealed(Backup(h, nBlock)));
  }

  lemma MbrFields(nBlock: nat)
    requires nBlock > 0
    ensures MbrTells(Mbr(nBlock)[440..], nBlock)
  {
    hide Field, Mbr;
    var r := Mbr(nBlock)[440..];
    Pow256Values();
    assert Pow256(3) == 0x100_0000;
    OneField();
    MbrSlice(nBlock, 0, 6, Zeros(6));
    MbrSlice(nBlock, 6, 7, [0x80]);
    MbrSlice(nBlock, 7, 10, [0, 2, 0]);
    MbrSlice(nBlock, 10, 11, [0xEE]);
    MbrSlice(nBlock, 11, 14, Le(EndChs(nBlock), 3));
    MbrSlice(nBlock, 14, 18, [1, 0, 0, 0]);
    MbrSlice(nBlock, 18, 22, Le(SizeInLba(nBlock), 4));
    MbrSlice(nBlock, 22, 70, Zeros(48));
    MbrSlice(nBlock, 70, 72, [0x55, 0xAA]);
    FieldStored(r, 11, 3, EndChs(nBlock));
    FieldStored(r, 14, 4, 1);
    FieldStored(r, 18, 4, SizeInLba(nBlock));
    SliceEnds(r);
  }

  lemma MbrSlice(nBlock: nat, a: nat, b: nat, s: seq<byte>)
    requires nBlock > 0 && a <= b <= 72 && |s| == b - a
    requires forall k :: 440 + a <= k < 440 + b ==> MbrByte(nBlock, k) == s[k - 440 - a]
    ensures Mbr(nBlock)[440..][a..b] == s
  {
    hide MbrByte;
    var t := Mbr(nBlock)[440..][a..b];
    forall i | 0 <= i < b - a
      ensures t[i] == s[i]
    {
      assert t[i] == Mbr(nBlock)[440 + a + i] == MbrByte(nBlock, 440 + a + i);
    }
  }

  lemma SliceEnds(r: seq<byte>)
    requires |r| == 72
    ensures r[..6] == r[0..6] && r[70..] == r[70..72] && r[6..7] == [r[6]] && r[10..11] == [r[10]]
  {
  }

  lemma OneField()
    ensures Le(1, 4) == [1, 0, 0, 0]
  {
    LeTail(1, 4);
    LeZero(3);
    var s := Le(1, 4);
    assert s == [s[0]] + s[1..];
    assert s[1..] == Zeros(3);
  }

  /**
   * The record covers what section 5.2.3 asks for, the whole disk as far as 32
   * bits go, on every disk but one of exactly 0xFFFFFFFF blocks, where it
   * claims one block too many.
   */
  lemma CoverIff(nBlock: nat)
    requires nBlock > 0
    ensures SizeInLba(nBlock) == Smaller(nBlock - 1, 0xFFFF_FFFF) <==> nBlock != 0xFFFF_FFFF
    ensures MbrTells(Mbr(nBlock)[440..], nBlock) && Field(Mbr(nBlock)[440..], 18, 4) == SizeInLba(nBlock)
  {
    MbrFields(nBlock);
  }

  lemma ArrayFields(h: Header)
    requires |h.diskId| == 16 && h.entries < U32 && h.entriesCrc < U32
    ensures Field(HeaderBytes(h), 72, 8) == 2 && Field(HeaderBytes(h), 80, 4) == h.entries
    ensures Field(HeaderBytes(h), 84, 4) == 128 && Field(HeaderBytes(h), 88, 4) == h.entriesCrc
  {
    hide Field;
    Pow256Values();
    HeaderFields(h, 72, 8, 2);
    HeaderFields(h, 80, 4, h.entries);
    HeaderFields(h, 84, 4, 128);
    HeaderFields(h, 88, 4, h.entriesCrc);
  }

  lemma SealedIntact(d: seq<byte>, o: nat, h: Header, lba: nat)
    requires |h.diskId| == 16 && h.crc == 0 && o + 92 <= |d| && d[o..o + 92] == HeaderBytes(Sealed(h))
    requires h.thisLba == lba < U32 * U32
    ensures HeaderIntact(d, o, lba)
  {
    hide Field, HeaderBytes, Crc32.Crc, Number;
    var s := Sealed(h);
    SealedFields(s);
    FieldInside(d, o, 92, 12, 4);
    FieldInside(d, o, 92, 16, 4);
    FieldInside(d, o, 92, 20, 4);
    FieldInside(d, o, 92, 24, 8);
    SliceOfSlice(d, o, o + 92, 0, 8);
    Unsealed(s);
    assert s.(crc := 0) == h;
  }

  lemma SealedArray(d: seq<byte>, o: nat, h: Header)
    requires |h.diskId| == 16 && o + 92 <= |d| && d[o..o + 92] == HeaderBytes(Sealed(h))
    requires h.entries < U32 && h.entriesCrc < U32
    ensures ArrayStart(d, o) == EntryAt(0) && ArrayBytes(d, o) == 128 * h.entries && Field(d, o + 88, 4) == h.entriesCrc
  {
    hide Field, HeaderBytes;
    ArrayFields(Sealed(h));
    FieldInside(d, o, 92, 72, 8);
    FieldInside(d, o, 92, 80, 4);
    FieldInside(d, o, 92, 84, 4);
    FieldInside(d, o, 92, 88, 4);
  }

  lemma HeaderVerifies(d: seq<byte>, nBlock: nat, h: Header, lba: nat, served: nat)
    requires |h.diskId| == 16 && BLOCK * lba + 92 <= |d| && d[BLOCK * lba..BLOCK * lba + 92] == HeaderBytes(Sealed(h))
    requires h.crc == 0 && h.thisLba == lba < U32 * U32 && h.entries == served < U32 && EntryAt(served) <= |d|
    requires Number(Crc(d[EntryAt(0)..EntryAt(served)])) == h.entriesCrc
    ensures Vouches(d, lba, served)
  {
    hide HeaderIntact, Sealed, HeaderBytes, ArrayStart, ArrayBytes, Field, Crc32.Crc, Number;
    SealedIntact(d, BLOCK * lba, h, lba);
    SealedArray(d, BLOCK * lba, h);
  }

  /**
   * On every generated disk both headers and the entry array verify when the
   * checksum field is zeroed and recomputed, and both headers lead to entries
   * that decode to the served partitions.
   */
  lemma DiskVerifies(d: seq<byte>, nBlock: nat, reqs: seq<Request>, starts: seq<nat>, served: nat, h: Header)
    requires Carvable(nBlock, reqs) && RequestsOk(reqs) && nBlock < U32 * U32 && |reqs| < U32
    requires Carved(d, nBlock, reqs, starts, served, h)
    ensures Vouches(d, 1, served) && Vouches(d, nBlock - 1, served) && EntryAt(served) <= BLOCK * (nBlock - 1)
    ensures nBlock >= 4 && HeadersAgree(d, nBlock, FirstSector(reqs) + Volume(reqs, served), h.diskId)
    ensures forall j :: 0 <= j < served ==> Decode(d[EntryAt(j)..EntryAt(j) + 128]) == Served(reqs[j], starts[j])
  {
    hide Vouches, Decode, Mbr, EntriesOk, HeadersWritten, LongestPrefix, HeadersAgree, Volume;
    HeadersVerify(d, nBlock, h, served);
    FirstUsableBound(nBlock, reqs, served);
    HeadersTell(d, nBlock, h, served);
    forall j | 0 <= j < served
      ensures Decode(d[EntryAt(j)..EntryAt(j) + 128]) == Served(reqs[j], starts[j])
    {
      PartitionInside(reqs, starts, Available(nBlock, reqs), served, j);
      EntryFound(d, reqs, starts, served, j);
    }
  }

  lemma FirstUsableBound(nBlock: nat, reqs: seq<Request>, served: nat)
    requires Carvable(nBlock, reqs) && LongestPrefix(reqs, Available(nBlock, reqs), served)
    ensures nBlock >= 4 && FirstSector(reqs) + Volume(reqs, served) <= nBlock - 2
  {
    hide LongestPrefix, Volume;
    ServedVolume(reqs, Available(nBlock, reqs), served);
  }

  lemma HeadersVerify(d: seq<byte>, nBlock: nat, h: Header, served: nat)
    requires HeadersWritten(d, nBlock, h, served) && nBlock < U32 * U32 && served < U32
    ensures Vouches(d, 1, served) && Vouches(d, nBlock - 1, served) && EntryAt(served) <= BLOCK * (nBlock - 1) <= |d|
  {
    hide Vouches, Sealed, HeaderBytes, Crc32.Crc, Number;
    HeaderVerifies(d, nBlock, h, 1, served);
    HeaderVerifies(d, nBlock, Backup(h, nBlock), nBlock - 1, served);
  }

  lemma EntryFound(d: seq<byte>, reqs: seq<Request>, starts: seq<nat>, served: nat, j: nat)
    requires RequestsOk(reqs) && EntriesOk(d, reqs, starts, served) && j < served
    requires starts[j] < U32 * U32 && starts[j] + reqs[j].volume <= U32 * U32
    ensures Decode(d[EntryAt(j)..EntryAt(j) + 128]) == Served(reqs[j], starts[j])
  {
    hide Decode, EntryBytes, Served;
    EntryDecodes(reqs[j], starts[j]);
  }

  /** The partition table as a reader finds it, the boot code area aside. */
  ghost predicate TableShown(d: seq<byte>, nBlock: nat, reqs: seq<Request>, starts: seq<nat>, served: nat,
                             id: seq<byte>)
  {
    && 4 <= nBlock && served <= |reqs| == |starts| && EntryAt(served) <= BLOCK * (nBlock - 1) <= |d| && 512 <= |d|
    && MbrTells(d[440..512], nBlock)
    && HeadersAgree(d, nBlock, FirstSector(reqs) + Volume(reqs, served), id)
    && (forall j :: 0 <= j < served ==> Decode(d[EntryAt(j)..EntryAt(j) + 128]) == Served(reqs[j], starts[j]))
    && Vouches(d, 1, served) && Vouches(d, nBlock - 1, served)
  }

  lemma CarvedShown(d: seq<byte>, nBlock: nat, reqs: seq<Request>, starts: seq<nat>, served: nat, h: Header)
    requires Carvable(nBlock, reqs) && RequestsOk(reqs) && nBlock < U32 * U32 && |reqs| < U32
    requires Carved(d, nBlock, reqs, starts, served, h)
    ensures TableShown(d, nBlock, reqs, starts, served, h.diskId)
  {
    hide Vouches, Decode, Served, Mbr, MbrTells, HeadersAgree, Volume, LongestPrefix, HeadersWritten, EntriesOk;
    DiskVerifies(d, nBlock, reqs, starts, served, h);
    assert d[440..512] == d[0..512][440..];
    MbrFields(nBlock);
    TableBounds(d, nBlock, h, served);
  }

  lemma TableBounds(d: seq<byte>, nBlock: nat, h: Header, served: nat)
    requires HeadersWritten(d, nBlock, h, served)
    ensures BLOCK * (nBlock - 1) <= |d|
  {
  }

  /** AlternateLBA of either intact header leads to the other intact header, and from there back. */
  lemma AlternateLeads(d: seq<byte>, nBlock: nat, reqs: seq<Request>, starts: seq<nat>, served: nat, id: seq<byte>,
                       lba: nat)
    requires TableShown(d, nBlock, reqs, starts, served, id) && (lba == 1 || lba == nBlock - 1)
    ensures BLOCK * lba + 92 <= |d| && Intact(d, lba)
    ensures var a := Alternate(d, lba); a != lba && Intact(d, a) && Alternate(d, a) == lba
  {
    hide Field, ArrayIntact, HeaderIntact, MbrTells, Decode, Served, ArrayStart, ArrayBytes;
    var o, p := BLOCK, BLOCK * (nBlock - 1);
    FieldInside(d, o, 92, 32, 8);
    FieldInside(d, p, 92, 32, 8);
  }

  /** Writes to the boot code area or between the entry array and the backup header leave the table as it is. */
  lemma TableKept(d: seq<byte>, e: seq<byte>, nBlock: nat, reqs: seq<Request>, starts: seq<nat>, served: nat,
                  id: seq<byte>, lo: nat, hi: nat)
    requires TableShown(d, nBlock, reqs, starts, served, id) && OnlyIn(d, e, lo, hi)
    requires hi <= 440 || (EntryAt(served) <= lo && hi <= BLOCK * (nBlock - 1))
    ensures TableShown(e, nBlock, reqs, starts, served, id)
  {
    hide Vouches, Decode, Served, MbrTells, HeaderTells, Volume;
    Unreached(d, e, 1, served, lo, hi);
    Unreached(d, e, nBlock - 1, served, lo, hi);
    OnlyInSlice(d, e, lo, hi, BLOCK, BLOCK + 92);
    OnlyInSlice(d, e, lo, hi, BLOCK * (nBlock - 1), BLOCK * (nBlock - 1) + 92);
    OnlyInSlice(d, e, lo, hi, 440, 512);
    forall j | 0 <= j < served
      ensures d[EntryAt(j)..EntryAt(j) + 128] == e[EntryAt(j)..EntryAt(j) + 128]
    {
      OnlyInSlice(d, e, lo, hi, EntryAt(j), EntryAt(j) + 128);
    }
  }

  /** Partition `p` lies between the entry array and the reserved sector, apart from every other one. */
  ghost predicate SetApart(nBlock: nat, reqs: seq<Request>, starts: seq<nat>, served: nat, p: nat) {
    && p < served <= |reqs| == |starts|
    && EntryAt(served) <= BLOCK * starts[p]
    && (forall q :: 0 <= q < served ==> starts[q] + reqs[q].volume <= nBlock - 2)
    && forall q :: 0 <= q < served && q != p ==>
         starts[q] + reqs[q].volume <= starts[p] || starts[p] + reqs[p].volume <= starts[q]
  }

  lemma PartitionApart(d: seq<byte>, nBlock: nat, reqs: seq<Request>, starts: seq<nat>, served: nat, h: Header, p: nat)
    requires Carvable(nBlock, reqs) && RequestsOk(reqs) && Carved(d, nBlock, reqs, starts, served, h) && p < served
    ensures SetApart(nBlock, reqs, starts, served, p)
  {
    hide Mbr, EntriesOk, HeadersWritten, LongestPrefix, SectorsForArray;
    forall q | 0 <= q < served
      ensures EntryAt(served) <= BLOCK * starts[q] && starts[q] + reqs[q].volume <= nBlock - 2
    {
      PartitionInside(reqs, starts, Available(nBlock, reqs), served, q);
    }
    forall q | 0 <= q < served && q != p
      ensures starts[q] + reqs[q].volume <= starts[p] || starts[p] + reqs[p].volume <= starts[q]
    {
      var i, j := if q < p then q else p, if q < p then p else q;
      PartitionsDisjoint(reqs, starts, FirstSector(reqs), Available(nBlock, reqs), served, i, j);
    }
  }

  lemma PartitionInside(reqs: seq<Request>, starts: seq<nat>, avail: nat, served: nat, p: nat)
    requires LongestPrefix(reqs, avail, served) && Packed(reqs, starts, FirstSector(reqs), served) && p < served
    ensures EntryAt(served) <= BLOCK * starts[p] && starts[p] + reqs[p].volume <= FirstSector(reqs) + avail
  {
    VolumeMono(reqs, p + 1, served);
    assert 4 * SectorsForArray(|reqs|) >= |reqs|;
  }

  /** Where the header's firstUsableLBA points: behind every served partition, not before the first. */
  lemma FirstUsablePastPartitions(d: seq<byte>, nBlock: nat, reqs: seq<Request>, starts: seq<nat>, served: nat,
                                  h: Header, j: nat)
    requires Carvable(nBlock, reqs) && RequestsOk(reqs) && Carved(d, nBlock, reqs, starts, served, h) && j < served
    ensures starts[j] + reqs[j].volume <= h.firstUsable <= nBlock - 2
  {
    hide Mbr, EntriesOk, HeadersWritten, LongestPrefix, SectorsForArray;
    ServedVolume(reqs, Available(nBlock, reqs), served);
    VolumeMono(reqs, j + 1, served);
  }

  lemma ServedVolume(reqs: seq<Request>, avail: nat, served: nat)
    requires LongestPrefix(reqs, avail, served)
    ensures Volume(reqs, served) <= avail
  {
  }

  // ----- damage -----

  lemma FieldDecides(d: seq<byte>, e: seq<byte>, o: nat, w: nat)
    requires o + w <= |d| == |e| && Field(d, o, w) == Field(e, o, w)
    ensures d[o..o + w] == e[o..o + w]
  {
    StoreLoaded(d[o..o + w]);
    StoreLoaded(e[o..o + w]);
  }

  lemma SliceField(d: seq<byte>, e: seq<byte>, o: nat, w: nat)
    requires o + w <= |d| == |e| && d[o..o + w] == e[o..o + w]
    ensures Field(d, o, w) == Field(e, o, w)
  {
  }

  /** Two intact headers have the same fixed fields around the checksum, and agree on it iff their bodies do. */
  lemma IntactTwice(d: seq<byte>, e: seq<byte>, o: nat, lba: nat)
    requires o + 92 <= |d| == |e| && HeaderIntact(d, o, lba) && HeaderIntact(e, o, lba)
    ensures d[o + 12..o + 16] == e[o + 12..o + 16] && d[o + 20..o + 24] == e[o + 20..o + 24]
    ensures Body(d, o) == Body(e, o) ==> d[o + 16..o + 20] == e[o + 16..o + 20]
    ensures d[o + 16..o + 20] == e[o + 16..o + 20] ==> Crc(Body(d, o)) == Crc(Body(e, o))
  {
    hide Field, Body, Crc32.Crc, Number;
    FieldDecides(d, e, o + 12, 4);
    FieldDecides(d, e, o + 20, 4);
    if Body(d, o) == Body(e, o) {
      FieldDecides(d, e, o + 16, 4);
    }
    if d[o + 16..o + 20] == e[o + 16..o + 20] {
      SliceField(d, e, o + 16, 4);
      NumberInjective(Crc(Body(d, o)), Crc(Body(e, o)));
    }
  }

  /** Slices that agree, agree byte by byte. */
  lemma SlicesAgree(d: seq<byte>, e: seq<byte>, x: nat, y: nat, k: nat)
    requires x <= k < y <= |d| == |e| && d[x..y] == e[x..y]
    ensures d[k] == e[k]
  {
    assert d[x..y][k - x] == e[x..y][k - x];
  }

  /** Any change within four consecutive bytes of a header is noticed, its own checksum field included. */
  lemma HeaderDamage(d: seq<byte>, e: seq<byte>, o: nat, lba: nat, lo: nat)
    requires o + 92 <= |d| && o <= lo && lo + 4 <= o + 92 && d != e && OnlyIn(d, e, lo, lo + 4)
    requires HeaderIntact(d, o, lba)
    ensures !HeaderIntact(e, o, lba)
  {
    hide HeaderIntact, Crc32.Crc;
    if HeaderIntact(e, o, lba) {
      IntactTwice(d, e, o, lba);
      forall k | o <= k < o + 92 && (12 <= k - o < 16 || 20 <= k - o < 24)
        ensures d[k] == e[k]
      {
        if k < o + 16 {
          SlicesAgree(d, e, o + 12, o + 16, k);
        } else {
          SlicesAgree(d, e, o + 20, o + 24, k);
        }
      }
      if o + 12 < lo < o + 20 {
        assert Body(d, o) == Body(e, o);
        BodyDecides(d, e, o, lo);
      } else {
        OnlyInSlice(d, e, lo, lo + 4, o + 16, o + 20);
        if Body(d, o) == Body(e, o) {
          BodyDecides(d, e, o, lo);
        } else {
          BurstDetected(Body(d, o), Body(e, o), lo - o);
        }
      }
    }
  }

  lemma BodyDecides(d: seq<byte>, e: seq<byte>, o: nat, lo: nat)
    requires o + 92 <= |d| && o <= lo && lo + 4 <= o + 92 && OnlyIn(d, e, lo, lo + 4)
    requires Body(d, o) == Body(e, o) && d[o + 16..o + 20] == e[o + 16..o + 20]
    ensures d == e
  {
    forall k | lo <= k < lo + 4
      ensures d[k] == e[k]
    {
      if o + 16 <= k < o + 20 {
        SlicesAgree(d, e, o + 16, o + 20, k);
      } else {
        assert Body(d, o)[k - o] == Body(e, o)[k - o];
      }
    }
  }

  lemma SliceDecides(d: seq<byte>, e: seq<byte>, a: nat, b: nat, lo: nat)
    requires a <= lo && lo + 4 <= b <= |d| && OnlyIn(d, e, lo, lo + 4) && d[a..b] == e[a..b]
    ensures d == e
  {
    forall k | lo <= k < lo + 4
      ensures d[k] == e[k]
    {
      SlicesAgree(d, e, a, b, k);
    }
  }

  /** Any change within four consecutive bytes of the entry array is noticed through a header apart from it. */
  lemma ArrayDamage(d: seq<byte>, e: seq<byte>, o: nat, lo: nat)
    requires o + 92 <= |d| && ArrayIntact(d, o) && d != e && OnlyIn(d, e, lo, lo + 4)
    requires ArrayStart(d, o) <= lo && lo + 4 <= ArrayStart(d, o) + ArrayBytes(d, o)
    requires lo + 4 <= o || o + 92 <= lo
    ensures !ArrayIntact(e, o)
  {
    hide Crc32.Crc, ArrayStart, ArrayBytes, Field, Number, OnlyIn;
    HeaderUntouched(d, e, o, lo, lo + 4);
    var a, n := ArrayStart(d, o), ArrayBytes(d, o);
    SliceDamage(d, e, a, a + n, lo);
  }

  lemma SliceDamage(d: seq<byte>, e: seq<byte>, a: nat, b: nat, lo: nat)
    requires a <= lo && lo + 4 <= b <= |d| && OnlyIn(d, e, lo, lo + 4) && d != e
    ensures |e| == |d| && Number(Crc(d[a..b])) != Number(Crc(e[a..b]))
  {
    hide Crc32.Crc, Number;
    var s, t := d[a..b], e[a..b];
    assert OnlyIn(s, t, lo - a, lo - a + 4);
    if s == t {
      SliceDecides(d, e, a, b, lo);
    } else {
      BurstDetected(s, t, lo - a);
      if Number(Crc(s)) == Number(Crc(t)) {
        NumberInjective(Crc(s), Crc(t));
      }
    }
  }

  lemma HeaderUntouched(d: seq<byte>, e: seq<byte>, o: nat, lo: nat, hi: nat)
    requires o + 92 <= |d| && OnlyIn(d, e, lo, hi) && (hi <= o || o + 92 <= lo)
    ensures d[o..o + 92] == e[o..o + 92]
    ensures ArrayStart(d, o) == ArrayStart(e, o) && ArrayBytes(d, o) == ArrayBytes(e, o)
    ensures Field(d, o + 88, 4) == Field(e, o + 88, 4)
  {
    OnlyInSlice(d, e, lo, hi, o, o + 92);
    FieldInside(d, o, 92, 72, 8);
    FieldInside(e, o, 92, 72, 8);
    FieldInside(d, o, 92, 80, 4);
    FieldInside(e, o, 92, 80, 4);
    FieldInside(d, o, 92, 84, 4);
    FieldInside(e, o, 92, 84, 4);
    FieldInside(d, o, 92, 88, 4);
    FieldInside(e, o, 92, 88, 4);
  }

  /** A header and an array that a change does not reach stay intact. */
  lemma Unreached(d: seq<byte>, e: seq<byte>, lba: nat, n: nat, lo: nat, hi: nat)
    requires Vouches(d, lba, n) && OnlyIn(d, e, lo, hi) && (hi <= BLOCK * lba || BLOCK * lba + 92 <= lo)
    requires hi <= EntryAt(0) || EntryAt(n) <= lo
    ensures Vouches(e, lba, n)
  {
    hide Crc32.Crc, Field, ArrayStart, ArrayBytes, HeaderIntact;
    HeaderUntouched(d, e, BLOCK * lba, lo, hi);
    HeaderSurvives(d, e, BLOCK * lba, lba);
    OnlyInSlice(d, e, lo, hi, EntryAt(0), EntryAt(n));
  }

  lemma HeaderSurvives(d: seq<byte>, e: seq<byte>, o: nat, lba: nat)
    requires o + 92 <= |d| == |e| && d[o..o + 92] == e[o..o + 92] && HeaderIntact(d, o, lba)
    ensures HeaderIntact(e, o, lba)
  {
    hide Crc32.Crc, Field;
    FieldInside(d, o, 92, 12, 4);
    FieldInside(e, o, 92, 12, 4);
    FieldInside(d, o, 92, 16, 4);
    FieldInside(e, o, 92, 16, 4);
    FieldInside(d, o, 92, 20, 4);
    FieldInside(e, o, 92, 20, 4);
    FieldInside(d, o, 92, 24, 8);
    FieldInside(e, o, 92, 24, 8);
    SliceOfSlice(d, o, o + 92, 0, 8);
    SliceOfSlice(e, o, o + 92, 0, 8);
  }

  lemma HeaderNoticed(d: seq<byte>, e: seq<byte>, lba: nat, other: nat, n: nat, lo: nat)
    requires Vouches(d, lba, n) && Vouches(d, other, n) && d != e && OnlyIn(d, e, lo, lo + 4)
    requires BLOCK * lba <= lo && lo + 4 <= BLOCK * lba + 92
    requires lba != other && (BLOCK * lba + 92 <= EntryAt(0) || EntryAt(n) <= BLOCK * lba)
    ensures !Intact(e, lba) && Vouches(e, other, n)
  {
    hide HeaderIntact, ArrayIntact, ArrayStart, ArrayBytes;
    HeaderDamage(d, e, BLOCK * lba, lba, lo);
    Unreached(d, e, other, n, lo, lo + 4);
  }

  lemma ArrayNoticed(d: seq<byte>, e: seq<byte>, lba: nat, n: nat, lo: nat)
    requires Vouches(d, lba, n) && d != e && OnlyIn(d, e, lo, lo + 4)
    requires EntryAt(0) <= lo && lo + 4 <= EntryAt(n)
    requires BLOCK * lba + 92 <= EntryAt(0) || EntryAt(n) <= BLOCK * lba
    ensures !Intact(e, lba)
  {
    hide HeaderIntact, ArrayIntact, ArrayStart, ArrayBytes;
    ArrayDamage(d, e, BLOCK * lba, lo);
  }

  /**
   * On a generated disk, damage confined to four consecutive bytes of one
   * header is noticed there while the other copy still verifies, and damage to
   * the entry array is noticed through both.
   */
  lemma DamageNoticed(d: seq<byte>, e: seq<byte>, nBlock: nat, reqs: seq<Request>, starts: seq<nat>, served: nat,
                      h: Header, lo: nat)
    requires Carvable(nBlock, reqs) && RequestsOk(reqs) && nBlock < U32 * U32 && |reqs| < U32
    requires Carved(d, nBlock, reqs, starts, served, h) && d != e && OnlyIn(d, e, lo, lo + 4)
    ensures BLOCK <= lo && lo + 4 <= BLOCK + 92 ==> !Intact(e, 1) && Vouches(e, nBlock - 1, served)
    ensures BLOCK * (nBlock - 1) <= lo && lo + 4 <= BLOCK * (nBlock - 1) + 92 ==>
      !Intact(e, nBlock - 1) && Vouches(e, 1, served)
    ensures EntryAt(0) <= lo && lo + 4 <= EntryAt(served) ==> !Intact(e, 1) && !Intact(e, nBlock - 1)
  {
    hide Vouches, Intact, Carved, Decode, Served, OnlyIn, HeadersAgree, Volume;
    DiskVerifies(d, nBlock, reqs, starts, served, h);
    var last := BLOCK * (nBlock - 1);
    if BLOCK <= lo && lo + 4 <= BLOCK + 92 {
      HeaderNoticed(d, e, 1, nBlock - 1, served, lo);
    }
    if last <= lo && lo + 4 <= last + 92 {
      HeaderNoticed(d, e, nBlock - 1, 1, served, lo);
    }
    if EntryAt(0) <= lo && lo + 4 <= EntryAt(served) {
      ArrayNoticed(d, e, 1, served, lo);
      ArrayNoticed(d, e, nBlock - 1, served, lo);
    }
  }
}
