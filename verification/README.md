# Disk images that boot, and pipelines that run: a Dafny model

This project models two parts of the repository and proves what they are for.

**The disk image and the loader that trusts it.** `gpt/gpt.c` carves a byte
buffer into partitions behind checksummed headers, `gpt/fat.c` formats one
partition and copies files into it, and `bootloader/vmlinux.c` later loads those
files knowing nothing but a start sector. The image is one `array<byte>` that
methods change in place, as in the source. The central theorem is a refinement:
after `createFAT32` and any run of `FAT32Copyin` calls, a reader that follows
only the boot sector, the root directory and the table chains lists exactly the
files of the abstract run, byte for byte (`FatRun.Build`). Around it stand the
allocator's invariant, exact acceptance, failure atomicity, the frame across
partitions, the checksums of both partition table headers with the damage they
notice, and the loader's reads.

**The shell front end.** `tlibc/sh.c` cuts a line into commands and words stored
in one shared buffer; `tlibc/system.c` forks and pipes recursively. Parsing
undoes printing for every pipeline. When fork and pipe succeed, every run of the
launcher, under every interleaving, completes after exactly 8n - 6 steps and is
then wired correctly, exactly when descriptors 0 and 1 were open to begin with.

How the parts lie in files:

| files | contents |
|---|---|
| `Wrappers`, `Arith`, `Bytes`, `Memory`, `Endian` | byte strings, block operations, little-endian fields on either host |
| `Crc32`, `CrcLaws` | table-driven CRC-32, its bitwise reference, error detection, residue and check value |
| `FatLayout`, `FatBoot`, `FatImage`, `FatReader` | geometry, boot sector, representation invariant, independent reader |
| `FatSuper`, `FatFormat`, `FatSteps`, `FatCopy` | the code of `gpt/fat.c`, proved against the invariant |
| `FatSpec`, `FatTables`, `FatRun` | one call and whole runs as transitions of the file list; tables; refinement |
| `Gpt`, `GptCheck`, `MkGpt` | `GPTGenerate`, a reader after section 5.3 of UEFI 2.10, whole images |
| `Boot`, `BootRead`, `Elf`, `BootKernel` | `__k_readfile`, the ELF loop, boot reads of FAT files, the kernel from image to memory |
| `Pipeline`, `Launcher` | the launcher as a step system, and the methods that perform its steps |
| `ShellSpec`, `Shell` | the command language, and the tokenizer that stores it |

Conventions. The environment is a parameter: `Fd` holds what `fstat`, `lseek`
and `read` answer, a schedule of `Choice`s holds which process moves and whether
its `pipe` or `fork` succeeds, and `read_disk` copies one 512-byte sector. C
assertions, null dereferences and writes past the disk are outcomes (`Aborted`,
`AssertFailed`, `NullExe`, `Overrun`), not preconditions. The FAT code stores and
loads its fields through `Endian` on a host `HOST` of unspecified byte order;
`GPTGenerate` reads a header field back in host order, so it is modelled on a
little-endian host. 32-bit truncation is written out where it matters
(file sizes, the MBR, free sector counts); volumes are below 4 GiB
(`Addressable`). Ghost parameters such as `g` and `files` carry the abstract
state that a method's contract speaks about.

Where the code differs from its comments or from what one might expect, the
model follows the code:

- an empty file takes a cluster number but lowers `freeCount` by nothing
  (`FatSpec.Conservation`), and aborts when it is the one past the last cluster
  (`FatSpec.AbortedIff`, reached in `FatSpec.EmptyFileAborts`);
- a dotted name is stored with its dot, in the bytes section 6 of the FAT
  specification gives to the extension alone (`FatSpec.DottedName`);
- an accepted configuration can be too small for any file
  (`FatSpec.TooSmallForFiles`; `FatSpec.SafeIff` says when it is not);
- a file of 4 GiB or more is stored truncated (`FatSpec.StoredWhole`, with an
  accepted one in `BootRead.HugeFileTruncated`);
- a file whose name starts with 0xE5 is stored like any other, though a reader
  that honours the deletion mark skips it (`FatReader.ListsUndeleted`);
- `firstUsableLBA` lies behind the partitions, not before them
  (`GptCheck.FirstUsablePastPartitions`);
- the protective MBR claims one block too many on a disk of exactly 0xFFFFFFFF
  blocks, and on no other (`GptCheck.CoverIff`);
- the clears of the entry loop overrun the entry array, and can overrun the disk
  when partitions are empty (`Gpt.EmptyPartitionsOverrun`; `Gpt.ClearsFitIff`
  says exactly when);
- the loader selects every odd segment type, not only `PT_LOAD` (`Boot.LoadKernel`);
- with descriptor 0 or 1 closed a pipeline of two or more jobs loses a pipe end
  (`Pipeline.PipelineWired`);
- a command whose words before the first pipe hold no argument, a blank one for
  instance, dereferences a null executable (`ShellSpec.NullExeIff`,
  `ShellSpec.SeparatorCrashes`);
- an operator right behind a redirection is its target: `cat < | wc` makes `|`
  both a pipe and a file name (`ShellSpec.TargetIff`, `ShellSpec.PipeAsTarget`).

## Model

| member | source | states |
|---|---|---|
| `FatRun.Build` | gpt/fat.c:381-895 | refinement over whole runs: format succeeds exactly on accepted configurations; then every call returns what the abstract run says and, unless an assertion ends the run, a reader of the bytes recovers the layout and lists exactly the files of the abstract run; nothing outside the partition changes |
| `FatRun.CopyAll` | gpt/fat.c:772-895 | any run of copies on any reachable image keeps the invariant for the abstract file list and returns the abstract outcomes |
| `FatRun.BuiltFrame` | gpt/mkgpt.c:115-118 | writes below the volume leave what a reader finds in it |
| `FatReader.Lists` | gpt/fat.c:381-895 | on every image that satisfies the invariant, mounting gives back the layout and following directory entries and table chains gives back the file list |
| `FatReader.ReadsBack` | gpt/fat.c:824-879 | each file reads back byte for byte through its directory entry and chain |
| `FatReader.WalkFile` | gpt/fat.c:873-879 | the chain of a file is the run of consecutive clusters the allocator gave it |
| `FatReader.MountRecovers` | gpt/fat.c:650-675 | the boot sector alone determines the layout that was chosen at format time |
| `FatReader.ListsUndeleted` | gpt/fat.c:701-707 | a reader that also skips names starting with 0xE5 finds all files if and only if no name starts so, and otherwise misses exactly those |
| `FatTables.AllocatorInvariant` | gpt/fat.c:472-486 | in both tables of every reachable image: per file one ascending contiguous chain in [3, nextFree) ending in 0xFFFFFFFF, chains pairwise disjoint, zeros from nextFree to the end, the two reserved entries, cluster 2 a chain of its own; the tables agree entry by entry and sectors 6 and 7 repeat sectors 0 and 1 |
| `FatTables.ChainsApart` | gpt/fat.c:873-885 | clusters of different files never meet and end below the allocator's mark |
| `FatLayout.LayoutIsSound` | gpt/fat.c:384-426 | for every accepted configuration no subtraction underflows, regions follow each other inside the volume, the allocator's bound never exceeds the entries of one table and its clusters end inside the volume |
| `FatLayout.FormatsIff` | gpt/fat.c:384-426 | what is accepted, number by number |
| `FatLayout.LayoutNumbers` | gpt/fat.c:415-426 | each table has the least number of sectors with an entry per cluster of the disk; data starts behind eight reserved sectors and two tables; the allocator's bound is the number of whole clusters behind |
| `FatLayout.RoomForRoot` | gpt/fat.c:419-426 | reserved sectors, both tables and one root cluster always fit |
| `FatLayout.CDivIsMacro` | gpt/fat.c:376 | the CDIV macro is the ceiling of the quotient |
| `FatBoot.BootSectorTells` | gpt/fat.c:427-455 | at the offsets of section 3 of the FAT specification, every byte of the boot sector: jump, OEM name, all parameters, labels, serial number, signature |
| `FatTables.ReservedTells` | gpt/fat.c:427-469 | in every reachable image the first sector tells all that, and FSInfo its signatures and both counters |
| `FatTables.SlackIsZero` | gpt/fat.c:825 | zeros from the end of a file to the end of its last cluster, in every reachable image |
| `FatTables.SlotsFill` | gpt/fat.c:698 | the root directory holds as many files as 32-byte entries fill its cluster |
| `FatReader.EntriesStamped` | gpt/fat.c:841-868 | every entry decodes to 21 February 1995, 8:30:24, for creation, last use and last write |
| `FatFormat.CreateFat32` | gpt/fat.c:381-495 | rejects exactly the invalid configurations, aborts exactly on too few clusters, touches nothing then, and otherwise establishes the invariant for the empty file list inside the partition |
| `FatFormat.IsDoubling` | gpt/fat.c:389-411 | the search loops accept exactly the numbers below the limit that are the start times a power of two |
| `FatFormat.DoublingsAre` | gpt/fat.c:389-411 | those are the sector sizes 512 to 4096 and the cluster sizes 1 to 128 |
| `FatFormat.WriteBootTail` | gpt/fat.c:427-455 | after both halves the sector holds every byte of the boot record |
| `FatFormat.WriteInfo` | gpt/fat.c:461-467 | the five FSInfo fields, whatever the sector held before |
| `FatFormat.InitRoot` | gpt/fat.c:488-491 | every root slot is vacant |
| `FatFormat.WriteTables` | gpt/fat.c:472-485 | both tables become the fresh table |
| `FatSuper.SuperInit` | gpt/fat.c:650-708 | terminates on every volume whose root chain ends, recovers the layout, counts the root entries over a root chain of any length and finds the first free one |
| `FatSuper.RootClusters` | gpt/fat.c:688-696 | the loop over the root chain counts its clusters, however many |
| `FatSuper.FreeSlot` | gpt/fat.c:699-707 | the first entry whose name starts with zero, or the number of entries when there is none |
| `FatSuper.AddressesAgree` | gpt/fat.c:713-735 | the cluster address, the sector formula of the copy and the table entry address agree with one another and stay inside the volume |
| `FatSuper.SectorIsCluster` | gpt/fat.c:822-824 | the returned sector starts at the byte where the cluster lies |
| `FatSuper.DataRegionAgrees` | gpt/fat.c:268-293 | numSectorDataRegion passes its assertion on every formatted volume and equals the count SuperInit derives the allocator's bound from |
| `FatSuper.WriteEntry` | gpt/fat.c:747-755 | asserts exactly outside [1, maxCluster); otherwise sets that entry in every table and no other |
| `FatSuper.WriteChain` | gpt/fat.c:873-879 | the linking loop turns tables of the old list into tables of the extended list; its assertion fails exactly for an empty file on a full volume |
| `FatCopy.CopyIn` | gpt/fat.c:772-895 | returns exactly what the abstract transition says, leaves an image of the new file list, writes only inside the partition; a call that returns 0 changes nothing but free clusters and the backup sectors |
| `FatCopy.Commit` | gpt/fat.c:819-889 | the part after the checks: fails exactly when I/O does, aborts exactly at the bound, otherwise the image means the list with the file appended |
| `FatCopy.ReadInto` | gpt/fat.c:825-833 | succeeds exactly when seek and read deliver the whole size; the clusters then hold the data padded with zeros |
| `FatCopy.WriteDirEntry` | gpt/fat.c:841-870 | the 32 bytes of the directory entry |
| `FatCopy.WriteName` | gpt/fat.c:846-858 | the two copy loops lay down the 11-byte name field |
| `FatCopy.SuperFree` | gpt/fat.c:758-765 | sectors 0 and 1 are copied whole to sectors 6 and 7, nothing else changes |
| `FatCopy.SlotIsNext` | gpt/fat.c:699-707 | the first free root slot is the one after the files |
| `FatCopy.RootChain` | gpt/fat.c:688-696 | the root directory stays a chain of one cluster |
| `FatSpec.AcceptedIff` | gpt/fat.c:798-889 | a file of any size, empty ones included, is accepted if and only if the kernel delivers it, a root slot and a cluster number are free and its clusters fit below the bound; it then takes as many numbers as it fills clusters, at least one |
| `FatSpec.NonemptyNeverAborts` | gpt/fat.c:798-883 | a non-empty file is never refused with an abort |
| `FatSpec.AbortedIff` | gpt/fat.c:749-821 | the assertions fire in exactly two situations: a volume too small for files, and an empty file on a full volume |
| `FatSpec.AppendsOne` | gpt/fat.c:803-895 | a call changes the list exactly when it returns a sector, by one file at the end |
| `FatSpec.RunsSafely` | gpt/fat.c:798-883 | no assertion fires on any run of non-empty files, the bound is never passed and earlier files stay |
| `FatSpec.SafeIff` | gpt/fat.c:798-799 | a volume survives every run of non-empty files if and only if maxCluster is at least 3 |
| `FatSpec.Conservation` | gpt/fat.c:874-885 | cluster numbers handed out are clusters with data plus one per empty file |
| `FatSpec.InfoConserved` | gpt/fat.c:881-885 | freeCount + nextFree stays at its value after format plus the number of empty files |
| `FatSpec.StoredWhole` | gpt/fat.c:785 | what is stored is the whole file if and only if its size fits 32 bits |
| `FatSpec.EmptyFileAborts` | gpt/fat.c:749-750 | on a 16-sector volume with two-sector clusters the first empty file aborts although maxCluster is 3 |
| `FatSpec.ShortNameInjective` | gpt/fat.c:846-858 | dot-free names are told apart by their directory field |
| `FatSpec.DottedName` | gpt/fat.c:846-858 | where each byte of a dotted name goes: the name to the front, the dot and what follows to bytes 8 to 10 |
| `FatSpec.TooSmallForFiles` | gpt/fat.c:798-799 | a 16-sector volume with four-sector clusters is formatted, and every copy into it with a working descriptor aborts |
| `Crc32.TableComputed` | gpt/gpt.c:29-82 | every constant of the table is its index with eight bits shifted out under polynomial 0xEDB88320 |
| `Crc32.TableStepIsBits` | gpt/gpt.c:92-97 | one table step equals eight bit steps |
| `Crc32.EfiCrc32` | gpt/gpt.c:85-100 | the table-driven loop equals the bit-by-bit checksum for every buffer and seed |
| `Crc32.Checksum` | gpt/gpt.c:102-105 | crc32 is the reflected CRC-32 with inverted start and end |
| `CrcLaws.Residue` | gpt/gpt.c:85-105 | a buffer followed by its own stored checksum always ends in the state 0xDEBB20E3, which fixes the final inversion and the byte order |
| `CrcLaws.LeadingZero` | gpt/gpt.c:102-105 | a zero byte in front changes the checksum of every buffer |
| `CrcLaws.CheckValue` | gpt/gpt.c:102-105 | "123456789" has the published checksum 0xCBF43926, and nothing has 0 |
| `CrcLaws.BitwisePacked` | gpt/gpt.c:92-97 | up to four bytes can be exclusive-ored in at once |
| `Crc32.BitwiseConcat` | gpt/gpt.c:85-100 | the checksum splits over concatenation |
| `Crc32.BitsInjective` | gpt/gpt.c:92-97 | shifting loses nothing |
| `Crc32.BurstDetected` | gpt/gpt.c:85-105 | any change confined to four consecutive bytes, a single byte included, changes the checksum of a buffer of any length |
| `Endian.Swap16` | gpt/endian.h:13-22 | the returned value has the bytes of the argument in reverse order |
| `Endian.Swap32` | gpt/endian.h:24-34 | the same for four bytes |
| `Endian.Swap64` | gpt/endian.h:36-46 | the loop reverses the bytes of the value |
| `Endian.Load` | gpt/endian.h:48-111 | a host of either byte order gets the little-endian value of the bytes |
| `Endian.Store` | gpt/endian.h:53-100 | a host of either byte order lays down the same little-endian bytes, cut to the width of the field, and nothing else |
| `Endian.LoadTruncated` | gpt/endian.h:48-111 | a load after a store gives the value modulo the width |
| `Endian.Exchange` | gpt/endian.h:48-111 | store on one host, load on another: the value modulo the width, so the identity on values that fit |
| `Gpt.Allocate` | gpt/gpt.c:341-357 | serves the longest prefix of requests that fits, packed without gaps; start + remains is constant |
| `Gpt.ServedIff` | gpt/gpt.c:341-357 | a request is served exactly when it and all before it end before the reserved sector |
| `Gpt.ArrayLeast` | gpt/gpt.c:327 | the array gets the least number of sectors with room for every request |
| `Gpt.PartitionsDisjoint` | gpt/gpt.c:341-357 | served partitions are ordered, adjacent, disjoint and end inside the available sectors |
| `Gpt.WritePartitionName` | gpt/gpt.c:295-301 | each character is followed by a zero byte |
| `Gpt.WritePartitionEntry` | gpt/gpt.c:366-373 | one entry in place, the rest of the cleared length zero, nothing before it touched |
| `Gpt.WriteEntries` | gpt/gpt.c:359-377 | although each round clears a whole array length, all entries are in place at the end |
| `Gpt.WritePrimary` | gpt/gpt.c:384-399 | the 92 bytes of the primary header, its checksum still zero |
| `Gpt.WriteBackup` | gpt/gpt.c:400-403 | the backup is the primary with the two addresses exchanged |
| `Gpt.SealHeader` | gpt/gpt.c:404-406 | the header carries the checksum of itself with that field zero |
| `Gpt.WriteHeaders` | gpt/gpt.c:378-406 | both headers carry the checksum of themselves and of the array; only the two headers change |
| `Gpt.WriteMbr` | gpt/gpt.c:173-195 | the 512 bytes of the protective MBR |
| `Gpt.Generate` | gpt/gpt.c:312-409 | refuses exactly when too small or without request, changing nothing; overruns exactly when `ClearsFit` fails; otherwise MBR, longest prefix, packed starts, entries and both headers are all in place together |
| `Gpt.ClearsFitIff` | gpt/gpt.c:341-366 | with A sectors available, the clears stay inside the disk if and only if there are at most 4A + 9 requests or the first 4A + 10 ask for more than A sectors |
| `Gpt.PositiveVolumesFit` | gpt/gpt.c:366 | with partitions of at least one sector the clears never leave the disk |
| `Gpt.EmptyPartitionsOverrun` | gpt/gpt.c:366 | twelve empty partitions on seven sectors drive a clear past the end |
| `GptCheck.EntryDecodes` | gpt/gpt.c:366-373 | an entry decodes to the partition's start, last sector, attributes 5, GUIDs and name |
| `GptCheck.DiskVerifies` | gpt/gpt.c:359-406 | on every generated disk both headers and the array verify when recomputed, the entries decode to the served partitions, and at their offsets both headers hold revision 0x10000, each other's address, the first and last usable block and the disk's GUID |
| `GptCheck.AlternateLeads` | gpt/gpt.c:391-403 | AlternateLBA of either intact header leads to the other intact header, and from there back |
| `GptCheck.MbrFields` | gpt/gpt.c:173-195 | one record of type 0xEE from block 1 on, its size, its end, the rest zero, and the signature |
| `GptCheck.CoverIff` | gpt/gpt.c:194 | the record covers the disk as section 5.2.3 of UEFI asks, except on a disk of exactly 0xFFFFFFFF blocks |
| `GptCheck.HeaderDamage` | gpt/gpt.c:404-406 | any change within four consecutive bytes of a header, its checksum included, is noticed |
| `GptCheck.DamageNoticed` | gpt/gpt.c:378-406 | damage to one header is noticed there while the other copy still verifies; damage to the array is noticed through both |
| `GptCheck.FirstUsablePastPartitions` | gpt/gpt.c:393 | firstUsableLBA lies behind every served partition |
| `GptCheck.PartitionApart` | gpt/gpt.c:324-357 | every partition lies between the entry array and the reserved sector, apart from all others |
| `GptCheck.TableKept` | gpt/mkgpt.c:87-118 | writes to the boot code area or between array and backup header leave the whole table as a reader finds it |
| `MkGpt.FillPartition` | gpt/mkgpt.c:87-114 | formatting one partition and any run of copies into it keep the MBR record, both headers, the entries and every other partition |
| `MkGpt.Make` | gpt/mkgpt.c:55-118 | mkgpt's image: a table of two partitions at sectors 3 and 262143 that verifies from either header, a volume in which a reader finds the files of the run, and the boot code |
| `MkGpt.MkgptPartitions` | gpt/mkgpt.c:60-74 | the two partitions decode to blocks 3 to 262142 and 262143 to 524285, with their names, types and ids |
| `MkGpt.BootSectors` | bootloader/mbr.c:14-21 | in mkgpt's image the first file lies at sector 531, and the second at 539 if and only if the first fits 4096 bytes |
| `BootRead.ReadAtBoot` | bootloader/vmlinux.c:69-92 | the loader, given partition start plus the first sector of a file, delivers exactly the requested slice of the file, the bytes a chain walk gives, and changes no memory but the target and its scratch sector |
| `BootRead.ReturnedIsStart` | gpt/fat.c:819-889 | a sector returned by any call of a run is, in the final image, the start of a file with that call's name, attributes and data |
| `BootRead.ReadReturned` | bootloader/vmlinux.c:69-92 | after format and any run, for every call that returned a sector, the loader started at the partition's first sector plus that number delivers exactly the requested slice of the data the call was given |
| `BootRead.HugeFileTruncated` | gpt/fat.c:785 | a file of 4 GiB and one byte is accepted by mkgpt's volume and one byte of it is stored |
| `BootRead.FileBytes` | gpt/fat.c:819-834 | a file's contents lie contiguously from the sector its copy returned |
| `BootRead.MkgptSectors` | gpt/mkgpt.c:58-95 | with mkgpt's configuration the start sectors are 531 and, after a first file of at most one cluster, 539 |
| `Boot.ReadFile` | bootloader/vmlinux.c:69-92 | any byte range of the disk, however it straddles sectors, arrives at the target |
| `Boot.MemZero` | bootloader/vmlinux.c:57-62 | zeroes the range and nothing else |
| `Boot.LoadSegment` | bootloader/vmlinux.c:110-121 | one round: a selected segment holds its bytes and zeros, an unselected one changes only the loader's buffer |
| `Boot.LoadKernel` | bootloader/vmlinux.c:97-122 | every segment with bit 0 of its type set holds its file bytes followed by zeros, and no other memory changes except the scratch sector and the loader's buffer |
| `BootKernel.LoadElf` | bootloader/vmlinux.c:97-122 | the loop in terms of the bytes of the file alone |
| `BootKernel.LoadPrinted` | bootloader/vmlinux.c:97-122 | for a file whose headers are printed in the order of the System V gABI: memory at p_paddr of every header with bit 0 of p_type set holds its slice of the file followed by zeros, all else unchanged |
| `BootKernel.ProgramRead` | bootloader/vmlinux.c:113-120 | the loader takes type, offset, physical address and sizes from where the gABI prints them |
| `BootKernel.BootMkgpt` | bootloader/mbr.c:14-21 | in mkgpt's image, behind a first file of at most 4096 bytes, the loader started at sector 539 loads the second file, an ELF kernel given by its printed headers, each segment at its physical address |
| `Pipeline.PipelineRuns` | tlibc/system.c:56-107 | with fork and pipe succeeding, under every interleaving: at most 8n - 6 steps, complete exactly after the last, and then wired exactly when n = 1 or descriptors 0 and 1 were open |
| `Pipeline.ScheduleExists` | tlibc/system.c:56-107 | for every n there is such a run that completes |
| `Pipeline.NoFailure` | tlibc/system.c:60-90 | where every call succeeds no process exits and the shell does not give up |
| `Pipeline.CompleteIff` | tlibc/system.c:74-107 | without failures, complete and nothing left to do are the same |
| `Pipeline.ShellWaitsForLast` | tlibc/system.c:60-71 | in every reachable state the shell's children are the process of the last job and no other |
| `Pipeline.PipelineWired` | tlibc/system.c:56-107 | every completed run of n jobs, whatever the interleaving: n - 1 pipes, each joining neighbours and held at either end by one process under one descriptor; outer stdin and stdout at the ends; the rest inherited; the shell's one child is the last job; exactly when n = 1 or descriptors 0 and 1 were open |
| `Pipeline.StepKeeps` | tlibc/system.c:74-107 | every step of every process, failing calls included, keeps the invariant |
| `Pipeline.MoveAdvances` | tlibc/system.c:74-107 | every step brings the end nearer, by exactly one when its call succeeds |
| `Pipeline.RunKeeps` | tlibc/system.c:74-107 | in every reachable state each process's table is determined by its place alone, even when calls fail |
| `Pipeline.RunningWired` | tlibc/system.c:98-104 | a process that reaches its job has that job's final table even if others failed |
| `Pipeline.RunEnds` | tlibc/system.c:56-107 | steps taken and steps remaining add up to at most 8n - 6, and to exactly that when every call succeeds |
| `Pipeline.NeverStuck` | tlibc/system.c:74-107 | while steps remain some process can take one |
| `Pipeline.NoJobs` | tlibc/system.c:66-79 | called with no job, no process ever reaches a job that exists |
| `Pipeline.Redirections` | tlibc/system.c:36-54 | a redirection whose open succeeds gets its own standard descriptor, closed or not; every other open descriptor keeps its meaning |
| `Launcher.Kernel.Move` | tlibc/system.c:74-107 | one step in place is one step of the transition function |
| `Launcher.Kernel.ExecJob` | tlibc/system.c:56-72 | running a schedule in place gives the state of the step system; with every call succeeding it completes after exactly 8n - 6 moves, and is then wired |
| `ShellSpec.ParseUndoesPrint` | tlibc/sh.c:63-141 | every pipeline of commands with arguments and redirections in any order, printed with any blanks, parses to exactly the argument lists and last targets meant |
| `ShellSpec.WordsOfSpaced` | tlibc/sh.c:63-86 | the words of a spaced text are its tokens |
| `ShellSpec.SegmentsExactly` | tlibc/sh.c:172-176 | the segments of a line are its one cut into maximal separator-free pieces |
| `ShellSpec.ActIff` | tlibc/sh.c:143-161 | for any command: the first word before the first pipe that is no operator and no target decides: "exit" and "q" leave, "pid" prints, "cd" changes to the next such word, none crashes, and any other is launched |
| `ShellSpec.ActPrinted` | tlibc/sh.c:143-161 | the same for printed pipelines, where exactly what was meant is launched |
| `ShellSpec.ReachedExactly` | tlibc/sh.c:172-176 | a command is reached if and only if none before it crashes or leaves; those behind "pid" and "cd" are reached |
| `ShellSpec.CharactersAre` | tlibc/sh.c:53-170 | the blanks, the separators and the operators |
| `ShellSpec.NullExeIff` | tlibc/sh.c:143-145 | the null executable is dereferenced if and only if every word before the first pipe is an operator or directly follows a redirection |
| `ShellSpec.BlankCrashes` | tlibc/sh.c:143-145 | blank commands are such |
| `ShellSpec.SeparatorCrashes` | tlibc/sh.c:172-176 | the line ";" reaches one |
| `ShellSpec.TargetIff` | tlibc/sh.c:91-135 | a word, operators included, is the target of a redirection if and only if it directly follows it; a pipe that does so gives the target to the job it starts |
| `ShellSpec.PipeAsTarget` | tlibc/sh.c:91-135 | a pipe right behind `<` starts the second job and names the file it reads |
| `ShellSpec.TakeAllGrows` | tlibc/sh.c:88-135 | further words never take back a job or an argument |
| `Shell.Contains` | tlibc/sh.c:19-29 | true exactly for NUL and the characters of the string |
| `Shell.Strcmp` | tlibc/sh.c:31-44 | the difference of the signed characters at the first position where the strings differ, the terminating zero included; zero exactly for equal strings |
| `Shell.SkipBlank` | tlibc/sh.c:65-71 | stops at the first character that is not blank |
| `Shell.SkipWord` | tlibc/sh.c:73-78 | stops at the first blank |
| `Shell.RecordWord` | tlibc/sh.c:80-89 | the word and a zero follow what is stored; everything before and behind stays |
| `Shell.TakeToken` | tlibc/sh.c:91-135 | one token does to the pointers what the abstract parser does to the strings, quirks included |
| `Shell.Tokenize` | tlibc/sh.c:51-141 | the slots point at exactly the words of the parsed jobs, all still intact in the shared buffer, of which at most length + 1 bytes are used |
| `Shell.TokenizePrinted` | tlibc/sh.c:46-141 | the slots of a printed line hold exactly the jobs that were meant |
| `Shell.PrintedRoomy` | tlibc/sh.c:47-141 | printed pipelines of up to four jobs and 63 arguments each fit the fixed tables |
| `Shell.SystemSingle` | tlibc/sh.c:46-162 | the verdict is decided by the first command's arguments as written out in `ActIff`, with pointers to the right strings |
| `Shell.StatusBits` | tlibc/sh.c:174 | the status has a bit set if and only if some launched command's answer has it |
| `Shell.Dispatch` | tlibc/sh.c:143-161 | picks the built-in command by comparing whole strings, else the launch |
| `Shell.SegmentEnd` | tlibc/sh.c:173 | the next separator or the end of the line |
| `Shell.System` | tlibc/sh.c:165-179 | terminates and hands each segment in order to system_single, until an exit or a crash ends the line; the result is the or of the launcher's answers |

## Left out

- FatFormat.CreateFat32: volumes of 4 GiB and more, where byte offsets wrap in 32 bits, and the option `writeRandomData`, which the code does not read.
- FatCopy.CopyIn: names whose parts overrun the 11-byte field; every caller passes short names without a dot. `read` delivers at most what was asked for.
- Gpt.WriteMbr: the MBR fields are stored in host order by the source; the model is of a little-endian host. The same holds for the header size read back before the checksums, and for numSectorDataRegion.
- Gpt.Generate: names longer than 36 characters, which overrun the entry; after an overrun nothing is said of the bytes.
- Boot.LoadKernel: program headers that straddle a sector, and 32-bit wrap of addresses; the jump to the entry point is not modelled.
- Pipeline.PipelineWired: descriptor limits appear only as a failing `pipe`; exec itself and its path search are not modelled.
- Launcher.Kernel.ExecJob: stops where every process has reached its job; jobs that end, the wait for the last one and its status are not modelled.
- Shell.Tokenize: commands that exceed the job table, where the source writes past its arrays (`Roomy` says which do not); the fields `used` and `pipe` of a job, which nothing reads.
- Shell.System: what the launcher answers is a parameter.
- `FAT32Mkdir`, which is not implemented, and the packing of date and time into the constants 0x1E55 and 0x43CC.
- `gpt/installer.c`, `gpt/blockdev.c`, and the file and mmap plumbing of `gpt/mkgpt.c`; of the latter only the order of calls and the constants.
- `bootloader/bzimage.c`, the assembly files, serial and disk port I/O.
- `tlibc/eval.c`, `tlibc/stdio.c` and the small utilities, which would add easier members only.
