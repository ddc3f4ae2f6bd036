/** GPTGenerate (gpt/gpt.c): partitions carved out of a disk, their entries and
    the two checksummed headers, laid down in place. */
module Gpt {
  import opened Bytes
  import Memory
  import opened Crc32

  const BLOCK: nat := 512

  /** struct PartitionConfig; the start LBA is written to a separate array. */
  datatype Request = Request(partType: seq<byte>, partId: seq<byte>, name: seq<byte>, volume: nat)

  /** GUIDs of 16 bytes and a name that fits the entry once widened. */
  predicate RequestOk(r: Request) {
    |r.partType| == 16 && |r.partId| == 16 && |r.name| <= 36 && 0 !in r.name
  }

  predicate RequestsOk(reqs: seq<Request>) {
    forall i :: 0 <= i < |reqs| ==> RequestOk(reqs[i])
  }

  // ----- allocation -----

  /** Sectors the first `k` requests ask for. */
  function Volume(reqs: seq<Request>, k: nat): nat
    requires k <= |reqs|
  {
    if k == 0 then 0 else Volume(reqs, k - 1) + reqs[k - 1].volume
  }

  lemma {:induction false} VolumeMono(reqs: seq<Request>, j: nat, k: nat)
    requires j <= k <= |reqs|
    ensures Volume(reqs, j) <= Volume(reqs, k)
    decreases k
  {
    if j < k {
      VolumeMono(reqs, j, k - 1);
    }
  }

  function SectorsForArray(n: nat): nat {
    (BLOCK / 128 - 1 + n) / (BLOCK / 128)
  }

  /** `served` is the longest prefix of requests that fits in `avail` sectors. */
  ghost predicate LongestPrefix(reqs: seq<Request>, avail: nat, served: nat) {
    served <= |reqs| && forall k :: 0 <= k <= |reqs| ==> (Volume(reqs, k) <= avail <==> k <= served)
  }

  /** Partition `i` of the served ones starts right behind the one before. */
  ghost predicate Packed(reqs: seq<Request>, starts: seq<nat>, first: nat, served: nat) {
    && served <= |reqs| == |starts|
    && forall i :: 0 <= i < served ==> starts[i] == first + Volume(reqs, i)
  }

  method Allocate(reqs: seq<Request>, starts: array<nat>, first: nat, avail: nat) returns (served: nat, start: nat)
    requires starts.Length == |reqs|
    modifies starts
    ensures LongestPrefix(reqs, avail, served) && Packed(reqs, starts[..], first, served)
    ensures start == first + Volume(reqs, served)
    ensures forall i :: served <= i < |reqs| ==> starts[i] == old(starts[i])
  {
    served, start := 0, first;
    var remains: nat := avail;
    while served < |reqs|
      invariant served <= |reqs| && start == first + Volume(reqs, served)
      invariant start + remains == first + avail
      invariant Packed(reqs, starts[..], first, served)
      invariant forall i :: served <= i < |reqs| ==> starts[i] == old(starts[i])
    {
      if remains < reqs[served].volume {
        break;
      }
      remains := remains - reqs[served].volume;
      starts[served] := start;
      start := start + reqs[served].volume;
      served := served + 1;
    }
    forall k | 0 <= k <= |reqs|
      ensures Volume(reqs, k) <= avail <==> k <= served
    {
      if k <= served {
        VolumeMono(reqs, k, served);
      } else {
        VolumeMono(reqs, served + 1, k);
      }
    }
  }

  /** Served partitions are ordered, disjoint, without gaps, and end by `first + avail`. */
  lemma PartitionsDisjoint(reqs: seq<Request>, starts: seq<nat>, first: nat, avail: nat, served: nat, i: nat, j: nat)
    requires LongestPrefix(reqs, avail, served) && Packed(reqs, starts, first, served) && i < j < served
    ensures first <= starts[i] && starts[i] + reqs[i].volume <= starts[j]
    ensures starts[i + 1] == starts[i] + reqs[i].volume
    ensures starts[j] + reqs[j].volume <= first + avail
  {
    VolumeMono(reqs, i + 1, j);
    VolumeMono(reqs, j + 1, served);
  }

  // ----- the entry array -----

  /** Byte `i` of the entry of a partition that starts at `start`. */
  function EntryByte(r: Request, start: nat, i: nat): byte
    requires RequestOk(r) && i < 128 && start + r.volume > 0
  {
    if i < 16 then r.partType[i]
    else if i < 32 then r.partId[i - 16]
    else if i < 40 then Le(start, 8)[i - 32]
    else if i < 48 then Le(start + r.volume - 1, 8)[i - 40]
    else if i < 56 then Le(5, 8)[i - 48]
    else if i % 2 == 0 && (i - 56) / 2 < |r.name| then r.name[(i - 56) / 2]
    else 0
  }

  function EntryBytes(r: Request, start: nat): (s: seq<byte>)
    requires RequestOk(r) && start + r.volume > 0
    ensures |s| == 128
  {
    seq(128, i requires 0 <= i < 128 => EntryByte(r, start, i))
  }

  /** writePartitionName: each character followed by a zero byte. */
  method WritePartitionName(disk: array<byte>, at: nat, name: seq<byte>)
    requires |name| <= 36 && at + 128 <= disk.Length
    requires forall k :: at + 56 <= k < at + 128 ==> disk[k] == 0
    modifies disk
    ensures OnlyIn(old(disk[..]), disk[..], at + 56, at + 128)
    ensures forall k :: at + 56 <= k < at + 128 ==>
      disk[k] == if (k - at) % 2 == 0 && (k - at - 56) / 2 < |name| then name[(k - at - 56) / 2] else 0
  {
    var idx := 0;
    for p := 0 to |name|
      invariant idx == 2 * p
      invariant OnlyIn(old(disk[..]), disk[..], at + 56, at + 128)
      invariant forall k :: at + 56 <= k < at + 128 ==>
        disk[k] == if (k - at) % 2 == 0 && (k - at - 56) / 2 < p then name[(k - at - 56) / 2] else 0
    {
      disk[at + 56 + idx] := name[p];
      idx := idx + 1;
      disk[at + 56 + idx] := 0;
      idx := idx + 1;
    }
  }

  method WritePartitionEntry(disk: array<byte>, at: nat, r: Request, start: nat, clear: nat)
    requires RequestOk(r) && 128 <= clear && at + clear <= disk.Length && start + r.volume > 0
    modifies disk
    ensures OnlyIn(old(disk[..]), disk[..], at, at + clear)
    ensures disk[..][at..at + 128] == EntryBytes(r, start)
    ensures forall k :: at + 128 <= k < at + clear ==> disk[k] == 0
  {
    Memory.Clear(disk, at, clear);
    Memory.Store(disk, at + 32, Le(start, 8));
    Memory.Store(disk, at + 40, Le(start + r.volume - 1, 8));
    Memory.Store(disk, at + 48, Le(5, 8));
    Memory.Store(disk, at + 16, r.partId);
    Memory.Store(disk, at, r.partType);
    WritePartitionName(disk, at, r.name);
  }

  function EntryAt(j: nat): nat {
    2 * BLOCK + 128 * j
  }

  /** The first `n` entries are in place. */
  ghost predicate EntriesOk(d: seq<byte>, reqs: seq<Request>, starts: seq<nat>, n: nat)
    requires RequestsOk(reqs)
  {
    && n <= |reqs| == |starts| && EntryAt(n) <= |d|
    && forall j :: 0 <= j < n ==> starts[j] > 0 && d[EntryAt(j)..EntryAt(j) + 128] == EntryBytes(reqs[j], starts[j])
  }

  lemma EntriesFrame(d: seq<byte>, e: seq<byte>, reqs: seq<Request>, starts: seq<nat>, n: nat, lo: nat, hi: nat)
    requires RequestsOk(reqs) && EntriesOk(d, reqs, starts, n) && OnlyIn(d, e, lo, hi)
    requires EntryAt(n) <= lo || hi <= EntryAt(0)
    ensures EntriesOk(e, reqs, starts, n)
  {
    forall j | 0 <= j < n
      ensures e[EntryAt(j)..EntryAt(j) + 128] == EntryBytes(reqs[j], starts[j])
    {
      OnlyInSlice(d, e, lo, hi, EntryAt(j), EntryAt(j) + 128);
    }
  }

  /**
   * The entry loop. Each round clears a whole array length from the current
   * entry on, so it overruns the array; earlier entries survive nevertheless.
   */
  method WriteEntries(disk: array<byte>, reqs: seq<Request>, starts: array<nat>, n: nat, clear: nat)
    requires RequestsOk(reqs) && n <= |reqs| == starts.Length && 128 <= clear
    requires forall i :: 0 <= i < n ==> starts[i] > 0
    requires n > 0 ==> EntryAt(n - 1) + clear <= disk.Length
    requires EntryAt(0) <= disk.Length
    modifies disk
    ensures EntriesOk(disk[..], reqs, starts[..], n) && ZerosBehind(disk[..], n, clear)
    ensures OnlyIn(old(disk[..]), disk[..], EntryAt(0), Top(n, clear))
  {
    hide EntryBytes, EntriesOk, ZerosBehind, OnlyIn;
    NoEntries(disk[..], reqs, starts[..], clear);
    for i := 0 to n
      invariant EntriesOk(disk[..], reqs, starts[..], i) && ZerosBehind(disk[..], i, clear)
      invariant OnlyIn(old(disk[..]), disk[..], EntryAt(0), Top(i, clear))
    {
      ghost var d := disk[..];
      WritePartitionEntry(disk, EntryAt(i), reqs[i], starts[i], clear);
      EntriesMore(d, disk[..], reqs, starts[..], i, clear);
      OnlyInMore(old(disk[..]), d, disk[..], i, clear);
    }
  }

  /** Where the clears of the first `n` rounds end. */
  function Top(n: nat, clear: nat): nat {
    if n > 0 then EntryAt(n - 1) + clear else EntryAt(0)
  }

  /** What the last clear leaves behind the first `n` entries. */
  ghost predicate ZerosBehind(d: seq<byte>, n: nat, clear: nat) {
    n > 0 ==> Top(n, clear) <= |d| && forall k :: EntryAt(n) <= k < Top(n, clear) ==> d[k] == 0
  }

  lemma NoEntries(d: seq<byte>, reqs: seq<Request>, starts: seq<nat>, clear: nat)
    requires RequestsOk(reqs) && |reqs| == |starts| && EntryAt(0) <= |d|
    ensures EntriesOk(d, reqs, starts, 0) && ZerosBehind(d, 0, clear) && OnlyIn(d, d, EntryAt(0), Top(0, clear))
  {
  }

  /** One more entry, cleared and written behind those that are in place. */
  lemma EntriesMore(d: seq<byte>, e: seq<byte>, reqs: seq<Request>, starts: seq<nat>, i: nat, clear: nat)
    requires RequestsOk(reqs) && EntriesOk(d, reqs, starts, i) && i < |reqs| && starts[i] > 0
    requires 128 <= clear && EntryAt(i) + clear <= |d| && OnlyIn(d, e, EntryAt(i), EntryAt(i) + clear)
    requires e[EntryAt(i)..EntryAt(i) + 128] == EntryBytes(reqs[i], starts[i])
    requires forall k :: EntryAt(i) + 128 <= k < EntryAt(i) + clear ==> e[k] == 0
    ensures EntriesOk(e, reqs, starts, i + 1) && ZerosBehind(e, i + 1, clear)
  {
    hide EntryBytes;
    EntriesFrame(d, e, reqs, starts, i, EntryAt(i), EntryAt(i) + clear);
  }

  lemma OnlyInMore(c: seq<byte>, d: seq<byte>, e: seq<byte>, i: nat, clear: nat)
    requires OnlyIn(c, d, EntryAt(0), Top(i, clear)) && OnlyIn(d, e, EntryAt(i), EntryAt(i) + clear)
    ensures OnlyIn(c, e, EntryAt(0), Top(i + 1, clear))
  {
  }

  // ----- headers -----

  /** struct GPTHeader, the fields that vary. */
  datatype Header = Header(crc: nat, thisLba: nat, alternate: nat, firstUsable: nat, lastUsable: nat,
                           diskId: seq<byte>, entries: nat, entriesCrc: nat)

  const SIGNATURE: seq<byte> := [0x45, 0x46, 0x49, 0x20, 0x50, 0x41, 0x52, 0x54]

  function HeaderByte(h: Header, i: nat): byte
    requires |h.diskId| == 16 && i < 92
  {
    if i < 8 then SIGNATURE[i]
    else if i < 12 then Le(0x1_0000, 4)[i - 8]
    else if i < 16 then Le(92, 4)[i - 12]
    else if i < 20 then Le(h.crc, 4)[i - 16]
    else if i < 24 then 0
    else if i < 32 then Le(h.thisLba, 8)[i - 24]
    else if i < 40 then Le(h.alternate, 8)[i - 32]
    else if i < 48 then Le(h.firstUsable, 8)[i - 40]
    else if i < 56 then Le(h.lastUsable, 8)[i - 48]
    else if i < 72 then h.diskId[i - 56]
    else if i < 80 then Le(2, 8)[i - 72]
    else if i < 84 then Le(h.entries, 4)[i - 80]
    else if i < 88 then Le(128, 4)[i - 84]
    else Le(h.entriesCrc, 4)[i - 88]
  }

  function HeaderBytes(h: Header): (s: seq<byte>)
    requires |h.diskId| == 16
    ensures |s| == 92
  {
    seq(92, i requires 0 <= i < 92 => HeaderByte(h, i))
  }

  /** The primary header, its checksum still zero. */
  method WritePrimary(disk: array<byte>, at: nat, h: Header)
    requires |h.diskId| == 16 && h.crc == 0 && at + 92 <= disk.Length
    modifies disk
    ensures OnlyIn(old(disk[..]), disk[..], at, at + 92)
    ensures disk[..][at..at + 92] == HeaderBytes(h)
  {
    LeZero(4);
    Memory.Clear(disk, at, 92);
    Memory.Store(disk, at, SIGNATURE);
    Memory.Store(disk, at + 8, Le(0x1_0000, 4));
    Memory.Store(disk, at + 12, Le(92, 4));
    Memory.Store(disk, at + 20, Le(0, 4));
    Memory.Store(disk, at + 24, Le(h.thisLba, 8));
    Memory.Store(disk, at + 32, Le(h.alternate, 8));
    Memory.Store(disk, at + 40, Le(h.firstUsable, 8));
    Memory.Store(disk, at + 48, Le(h.lastUsable, 8));
    Memory.Store(disk, at + 56, h.diskId);
    Memory.Store(disk, at + 72, Le(2, 8));
    Memory.Store(disk, at + 80, Le(h.entries, 4));
    Memory.Store(disk, at + 84, Le(128, 4));
    Memory.Store(disk, at + 88, Le(h.entriesCrc, 4));
  }

  /** The backup: the primary's bytes with the two addresses changed. */
  method WriteBackup(disk: array<byte>, at: nat, primary: nat, h: Header, thisLba: nat, alternate: nat)
    requires |h.diskId| == 16 && primary + 92 <= at && at + 92 <= disk.Length
    requires disk[..][primary..primary + 92] == HeaderBytes(h)
    modifies disk
    ensures OnlyIn(old(disk[..]), disk[..], at, at + 92)
    ensures disk[..][at..at + 92] == HeaderBytes(h.(thisLba := thisLba, alternate := alternate))
  {
    ghost var d := disk[..];
    assert forall i :: primary <= i < primary + 92 ==> d[i] == HeaderBytes(h)[i - primary];
    Memory.Copy(disk, at, primary, 92);
    Memory.Store(disk, at + 24, Le(thisLba, 8));
    Memory.Store(disk, at + 32, Le(alternate, 8));
  }

  /** The header with its own checksum filled in. */
  function Sealed(h: Header): Header
    requires |h.diskId| == 16
  {
    h.(crc := Number(Crc(HeaderBytes(h.(crc := 0)))))
  }

  method SealHeader(disk: array<byte>, at: nat, ghost h: Header)
    requires |h.diskId| == 16 && h.crc == 0 && at + 92 <= disk.Length
    requires disk[..][at..at + 92] == HeaderBytes(h)
    modifies disk
    ensures OnlyIn(old(disk[..]), disk[..], at + 16, at + 20)
    ensures disk[..][at..at + 92] == HeaderBytes(Sealed(h))
  {
    hide HeaderBytes, Number, Crc32.Crc;
    ghost var d := disk[..];
    assert disk[at..at + 92] == d[at..at + 92];
    var crc := Checksum(disk, at, 92);
    Memory.Store(disk, at + 16, Le(Number(crc), 4));
    SealedBytes(d, disk[..], at, h, Number(crc));
  }

  lemma SealedBytes(d: seq<byte>, e: seq<byte>, at: nat, h: Header, crc: nat)
    requires |h.diskId| == 16 && at + 92 <= |d| == |e| && d[at..at + 92] == HeaderBytes(h)
    requires forall k :: 0 <= k < |d| ==> e[k] == if at + 16 <= k < at + 20 then Le(crc, 4)[k - (at + 16)] else d[k]
    ensures e[at..at + 92] == HeaderBytes(h.(crc := crc))
  {
    hide Le;
    assert forall i :: at <= i < at + 92 ==> d[i] == HeaderBytes(h)[i - at];
  }

  // ----- the protective MBR -----

  /** Byte `i` of the protective MBR of a disk of `nBlock` sectors (little-endian host). */
  function MbrByte(nBlock: nat, i: nat): byte
    requires i < 512 && nBlock > 0
  {
    if i == 446 then 0x80
    else if i == 448 then 0x02
    else if i == 450 then 0xEE
    else if 451 <= i < 454 then Le(EndChs(nBlock), 3)[i - 451]
    else if i == 454 then 1
    else if 458 <= i < 462 then Le(SizeInLba(nBlock), 4)[i - 458]
    else if i == 510 then 0x55
    else if i == 511 then 0xAA
    else 0
  }

  /** `end`, computed in 32 bits and capped. */
  function EndChs(nBlock: nat): nat {
    var end := BLOCK * nBlock % U32;
    if end > 0xFF_FFFF then 0xFF_FFFF else end
  }

  function SizeInLba(nBlock: nat): nat
    requires nBlock > 0
  {
    if nBlock >= 0xFFFF_FFFF then 0xFFFF_FFFF else nBlock - 1
  }

  function Mbr(nBlock: nat): (s: seq<byte>)
    requires nBlock > 0
    ensures |s| == 512
  {
    seq(512, i requires 0 <= i < 512 => MbrByte(nBlock, i))
  }

  /** createProtectGPT */
  method WriteMbr(disk: array<byte>, nBlock: nat)
    requires nBlock > 0 && 512 <= disk.Length
    modifies disk
    ensures OnlyIn(old(disk[..]), disk[..], 0, 512)
    ensures disk[..][0..512] == Mbr(nBlock)
  {
    Memory.Clear(disk, 0, 512);
    Memory.Store(disk, 510, [0x55, 0xAA]);
    Memory.Store(disk, 446, [0x80]);
    Memory.Store(disk, 447, [0x00, 0x02, 0x00]);
    Memory.Store(disk, 450, [0xEE]);
    Memory.Store(disk, 451, Le(EndChs(nBlock), 3));
    Memory.Store(disk, 454, [1, 0, 0, 0]);
    Memory.Store(disk, 458, Le(SizeInLba(nBlock), 4));
  }

  // ----- the whole disk -----

  function FirstSector(reqs: seq<Request>): nat {
    2 + SectorsForArray(|reqs|)
  }

  /** Sectors left for partitions; GPTGenerate returns 0 when there are no such sectors or no request. */
  predicate Carvable(nBlock: nat, reqs: seq<Request>) {
    4 + SectorsForArray(|reqs|) <= nBlock && SectorsForArray(|reqs|) != 0
  }

  function Available(nBlock: nat, reqs: seq<Request>): nat
    requires Carvable(nBlock, reqs)
  {
    nBlock - 4 - SectorsForArray(|reqs|)
  }

  /** The array gets the least number of sectors with room for an entry per request. */
  lemma ArrayLeast(n: nat)
    ensures 4 * SectorsForArray(n) < n + 4 && n <= 4 * SectorsForArray(n)
  {
  }

  /** A request is served exactly when it and all before it end before the reserved sector. */
  lemma ServedIff(nBlock: nat, reqs: seq<Request>, served: nat, j: nat)
    requires Carvable(nBlock, reqs) && LongestPrefix(reqs, Available(nBlock, reqs), served) && j < |reqs|
    ensures j < served <==> 2 + SectorsForArray(|reqs|) + Volume(reqs, j + 1) <= nBlock - 2
  {
  }

  /** The last clear of the entry loop, and so every one, ends inside the disk. */
  predicate ClearsInside(nBlock: nat, reqs: seq<Request>, served: nat) {
    served > 0 ==> EntryAt(served - 1) + SectorsForArray(|reqs|) * BLOCK <= BLOCK * nBlock
  }

  /** What a caller can check beforehand: no more requests than the clears can bear, or too large a volume. */
  predicate ClearsFit(nBlock: nat, reqs: seq<Request>)
    requires Carvable(nBlock, reqs)
  {
    var k := 4 * Available(nBlock, reqs) + 9;
    |reqs| <= k || Volume(reqs, k + 1) > Available(nBlock, reqs)
  }

  /** The clears stay inside the disk if and only if that check passes. */
  lemma ClearsFitIff(nBlock: nat, reqs: seq<Request>, served: nat)
    requires Carvable(nBlock, reqs) && LongestPrefix(reqs, Available(nBlock, reqs), served)
    ensures ClearsInside(nBlock, reqs, served) <==> ClearsFit(nBlock, reqs)
  {
    var avail := Available(nBlock, reqs);
    var k := 4 * avail + 9;
    assert ClearsInside(nBlock, reqs, served) <==> served <= k;
    if |reqs| > k {
      assert Volume(reqs, k + 1) <= avail <==> k + 1 <= served;
    }
  }

  lemma {:induction false} PositiveVolume(reqs: seq<Request>, k: nat)
    requires k <= |reqs| && forall i :: 0 <= i < |reqs| ==> reqs[i].volume >= 1
    ensures Volume(reqs, k) >= k
    decreases k
  {
    if k > 0 {
      PositiveVolume(reqs, k - 1);
    }
  }

  /** Partitions of at least one sector each keep the clears inside the disk. */
  lemma PositiveVolumesFit(nBlock: nat, reqs: seq<Request>)
    requires Carvable(nBlock, reqs) && forall i :: 0 <= i < |reqs| ==> reqs[i].volume >= 1
    ensures ClearsFit(nBlock, reqs)
  {
    var k := 4 * Available(nBlock, reqs) + 9;
    if |reqs| > k {
      PositiveVolume(reqs, k + 1);
    }
  }

  /** Empty partitions can drive the clears past the end of the disk. */
  lemma EmptyPartitionsOverrun(r: Request)
    requires RequestOk(r) && r.volume == 0
    ensures var reqs := seq(12, i => r); Carvable(7, reqs) && !ClearsFit(7, reqs)
  {
    ZeroVolume(seq(12, i => r), 10);
  }

  lemma {:induction false} ZeroVolume(reqs: seq<Request>, k: nat)
    requires k <= |reqs| && forall i :: 0 <= i < |reqs| ==> reqs[i].volume == 0
    ensures Volume(reqs, k) == 0
    decreases k
  {
    if k > 0 {
      ZeroVolume(reqs, k - 1);
    }
  }

  /** The primary header of a disk that serves `served` partitions. */
  function Primary(nBlock: nat, diskId: seq<byte>, firstUsable: nat, served: nat, entriesCrc: nat): Header
    requires nBlock >= 2
  {
    Header(0, 1, nBlock - 1, firstUsable, nBlock - 2, diskId, served, entriesCrc)
  }

  function Backup(h: Header, nBlock: nat): Header
    requires nBlock >= 2
  {
    h.(thisLba := nBlock - 1, alternate := 1)
  }

  /** Both headers and the array they vouch for. */
  ghost predicate HeadersWritten(d: seq<byte>, nBlock: nat, h: Header, served: nat) {
    && nBlock >= 4 && |d| >= BLOCK * nBlock && |h.diskId| == 16 && h.entries == served && h.crc == 0 && h.thisLba == 1
    && EntryAt(served) <= BLOCK * (nBlock - 1)
    && d[BLOCK..BLOCK + 92] == HeaderBytes(Sealed(h))
    && d[BLOCK * (nBlock - 1)..BLOCK * (nBlock - 1) + 92] == HeaderBytes(Sealed(Backup(h, nBlock)))
    && Number(Crc(d[EntryAt(0)..EntryAt(served)])) == h.entriesCrc
  }

  /** The headers, written behind a finished entry array. */
  method WriteHeaders(disk: array<byte>, nBlock: nat, diskId: seq<byte>, firstUsable: nat,
                      served: nat) returns (ghost h: Header)
    requires nBlock >= 4 && disk.Length >= BLOCK * nBlock && |diskId| == 16 && EntryAt(served) <= BLOCK * (nBlock - 1)
    modifies disk
    ensures h == Primary(nBlock, diskId, firstUsable, served, h.entriesCrc)
    ensures HeadersWritten(disk[..], nBlock, h, served)
    ensures OnlyHeaders(old(disk[..]), disk[..], nBlock)
  {
    hide HeaderBytes, Crc32.Crc, Number, OnlyIn, OnlyHeaders;
    var crc := Checksum(disk, EntryAt(0), 128 * served);
    h := Primary(nBlock, diskId, firstUsable, served, Number(crc));
    ghost var d0 := disk[..];
    assert disk[EntryAt(0)..EntryAt(0) + 128 * served] == d0[EntryAt(0)..EntryAt(served)];
    var last := BLOCK * (nBlock - 1);
    WritePrimary(disk, BLOCK, Primary(nBlock, diskId, firstUsable, served, Number(crc)));
    ghost var d1 := disk[..];
    WriteBackup(disk, last, BLOCK, Primary(nBlock, diskId, firstUsable, served, Number(crc)), nBlock - 1, 1);
    ghost var d2 := disk[..];
    OnlyInSlice(d1, d2, last, last + 92, BLOCK, BLOCK + 92);
    SealHeader(disk, BLOCK, h);
    ghost var d3 := disk[..];
    OnlyInSlice(d2, d3, BLOCK + 16, BLOCK + 20, last, last + 92);
    SealHeader(disk, last, Backup(h, nBlock));
    OnlyInSlice(d3, disk[..], last + 16, last + 20, BLOCK, BLOCK + 92);
    HeadersOnly(d0, d1, d2, d3, disk[..], nBlock);
    ArrayKept(d0, disk[..], nBlock, served);
  }

  lemma HeadersOnly(d0: seq<byte>, d1: seq<byte>, d2: seq<byte>, d3: seq<byte>, d4: seq<byte>, nBlock: nat)
    requires nBlock >= 4 && OnlyIn(d0, d1, BLOCK, BLOCK + 92)
    requires OnlyIn(d1, d2, BLOCK * (nBlock - 1), BLOCK * (nBlock - 1) + 92) && OnlyIn(d2, d3, BLOCK + 16, BLOCK + 20)
    requires OnlyIn(d3, d4, BLOCK * (nBlock - 1) + 16, BLOCK * (nBlock - 1) + 20)
    ensures OnlyHeaders(d0, d4, nBlock)
  {
  }

  lemma ArrayKept(d: seq<byte>, e: seq<byte>, nBlock: nat, served: nat)
    requires nBlock >= 4 && BLOCK * nBlock <= |d| && OnlyHeaders(d, e, nBlock)
    requires EntryAt(served) <= BLOCK * (nBlock - 1)
    ensures |e| == |d| && d[EntryAt(0)..EntryAt(served)] == e[EntryAt(0)..EntryAt(served)]
  {
  }

  /** Only the two headers may differ. */
  ghost predicate OnlyHeaders(a: seq<byte>, b: seq<byte>, nBlock: nat)
    requires nBlock > 0
  {
    && |a| == |b|
    && forall k :: 0 <= k < |a| ==>
         BLOCK <= k < BLOCK + 92 || BLOCK * (nBlock - 1) <= k < BLOCK * (nBlock - 1) + 92 || a[k] == b[k]
  }

  /** What GPTGenerate leaves on a disk it carves. */
  ghost predicate Carved(d: seq<byte>, nBlock: nat, reqs: seq<Request>, starts: seq<nat>, served: nat, h: Header)
    requires Carvable(nBlock, reqs) && RequestsOk(reqs)
  {
    && LongestPrefix(reqs, Available(nBlock, reqs), served) && Packed(reqs, starts, FirstSector(reqs), served)
    && 512 <= |d| && d[0..512] == Mbr(nBlock)
    && EntriesOk(d, reqs, starts, served)
    && HeadersWritten(d, nBlock, h, served)
    && h.firstUsable == FirstSector(reqs) + Volume(reqs, served) && h.lastUsable == nBlock - 2
    && h.alternate == nBlock - 1
  }

  /** GPTGenerate refuses, serves some partitions, or clears memory behind the disk. */
  datatype Generated = Refused | Finished(served: nat) | Overrun

  /**
   * GPTGenerate. It overruns the disk exactly when `ClearsFit` says so;
   * nothing is promised of the bytes then.
   */
  method Generate(disk: array<byte>, nBlock: nat, diskId: seq<byte>, reqs: seq<Request>, starts: array<nat>)
    returns (r: Generated, ghost h: Header)
    requires RequestsOk(reqs) && starts.Length == |reqs| && |diskId| == 16 && disk.Length >= BLOCK * nBlock
    modifies disk, starts
    ensures r.Refused? <==> !Carvable(nBlock, reqs)
    ensures r.Overrun? <==> Carvable(nBlock, reqs) && !ClearsFit(nBlock, reqs)
    ensures r.Refused? ==> disk[..] == old(disk[..]) && starts[..] == old(starts[..])
    ensures r.Finished? ==> Carved(disk[..], nBlock, reqs, starts[..], r.served, h) && h.diskId == diskId
    ensures !r.Overrun? ==> OnlyIn(old(disk[..]), disk[..], 0, BLOCK * nBlock)
  {
    hide Carved;
    var arrays := SectorsForArray(|reqs|);
    if nBlock < 4 + arrays || arrays == 0 {
      r, h := Refused, Header(0, 1, 1, 0, 0, diskId, 0, 0);
    } else {
      r, h := Carve(disk, nBlock, diskId, reqs, starts);
    }
  }

  /** The writes of GPTGenerate, once the disk is large enough. */
  method Carve(disk: array<byte>, nBlock: nat, diskId: seq<byte>, reqs: seq<Request>, starts: array<nat>)
    returns (r: Generated, ghost h: Header)
    requires RequestsOk(reqs) && starts.Length == |reqs| && |diskId| == 16 && disk.Length >= BLOCK * nBlock
    requires Carvable(nBlock, reqs)
    modifies disk, starts
    ensures !r.Refused? && (r.Overrun? <==> !ClearsFit(nBlock, reqs))
    ensures r.Finished? ==> Carved(disk[..], nBlock, reqs, starts[..], r.served, h) && h.diskId == diskId
    ensures !r.Overrun? ==> OnlyIn(old(disk[..]), disk[..], 0, BLOCK * nBlock)
  {
    hide Mbr, LongestPrefix, ClearsFit, ClearsInside, Volume, EntriesOk, HeadersWritten, OnlyHeaders;
    ghost var d0 := disk[..];
    h := Header(0, 1, 1, 0, 0, diskId, 0, 0);
    WriteMbr(disk, nBlock);
    ghost var d1 := disk[..];
    var served, start := Allocate(reqs, starts, FirstSector(reqs), Available(nBlock, reqs));
    ClearsFitIff(nBlock, reqs, served);
    if !ClearsInside(nBlock, reqs, served) {
      return Overrun, h;
    }
    h := WriteTable(disk, nBlock, diskId, reqs, starts, served, start);
    r := Finished(served);
    StagesFrame(d0, d1, disk[..], nBlock);
  }

  /** Entries and headers of the partitions that are served. */
  method WriteTable(disk: array<byte>, nBlock: nat, diskId: seq<byte>, reqs: seq<Request>, starts: array<nat>,
                    served: nat, start: nat)
    returns (ghost h: Header)
    requires RequestsOk(reqs) && starts.Length == |reqs| && |diskId| == 16 && disk.Length >= BLOCK * nBlock
    requires Carvable(nBlock, reqs) && LongestPrefix(reqs, Available(nBlock, reqs), served)
    requires ClearsInside(nBlock, reqs, served) && Packed(reqs, starts[..], FirstSector(reqs), served)
    modifies disk
    ensures EntriesOk(disk[..], reqs, starts[..], served) && HeadersWritten(disk[..], nBlock, h, served)
    ensures h == Primary(nBlock, diskId, start, served, h.entriesCrc)
    ensures OnlyIn(old(disk[..]), disk[..], 512, BLOCK * nBlock)
  {
    hide LongestPrefix, Volume, EntriesOk, HeadersWritten, OnlyHeaders, OnlyIn;
    ghost var d1 := disk[..];
    ServedFit(nBlock, reqs, served);
    var clear := SectorsForArray(|reqs|) * BLOCK;
    WriteEntries(disk, reqs, starts, served, clear);
    ghost var d2 := disk[..];
    h := WriteHeaders(disk, nBlock, diskId, start, served);
    HeadersFrame(d2, disk[..], nBlock, reqs, starts[..], served);
    EntriesThenHeaders(d1, d2, disk[..], nBlock, Top(served, clear));
  }

  lemma EntriesThenHeaders(d1: seq<byte>, d2: seq<byte>, d3: seq<byte>, nBlock: nat, top: nat)
    requires nBlock >= 4 && BLOCK * nBlock <= |d1| && top <= BLOCK * nBlock
    requires OnlyIn(d1, d2, EntryAt(0), top) && OnlyHeaders(d2, d3, nBlock)
    ensures OnlyIn(d1, d3, 512, BLOCK * nBlock)
  {
  }

  lemma StagesFrame(d0: seq<byte>, d1: seq<byte>, d3: seq<byte>, nBlock: nat)
    requires nBlock >= 4 && BLOCK * nBlock <= |d0|
    requires OnlyIn(d0, d1, 0, 512) && OnlyIn(d1, d3, 512, BLOCK * nBlock)
    ensures d1[0..512] == d3[0..512] && OnlyIn(d0, d3, 0, BLOCK * nBlock)
  {
  }

  lemma ServedFit(nBlock: nat, reqs: seq<Request>, served: nat)
    requires Carvable(nBlock, reqs) && ClearsInside(nBlock, reqs, served)
    requires LongestPrefix(reqs, Available(nBlock, reqs), served)
    ensures served > 0 ==> EntryAt(served - 1) + SectorsForArray(|reqs|) * BLOCK <= BLOCK * nBlock
    ensures EntryAt(served) <= BLOCK * (nBlock - 2)
  {
  }

  /** The MBR and the entries survive the header writes. */
  lemma HeadersFrame(d: seq<byte>, e: seq<byte>, nBlock: nat, reqs: seq<Request>, starts: seq<nat>, n: nat)
    requires RequestsOk(reqs) && EntriesOk(d, reqs, starts, n)
    requires nBlock >= 4 && BLOCK * nBlock <= |d| && OnlyHeaders(d, e, nBlock) && EntryAt(n) <= BLOCK * (nBlock - 1)
    ensures EntriesOk(e, reqs, starts, n) && d[0..512] == e[0..512]
  {
    forall j | 0 <= j < n
      ensures e[EntryAt(j)..EntryAt(j) + 128] == EntryBytes(reqs[j], starts[j])
    {
      assert d[EntryAt(j)..EntryAt(j) + 128] == e[EntryAt(j)..EntryAt(j) + 128];
    }
  }
}
