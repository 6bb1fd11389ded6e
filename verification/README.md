# Runix verification models

Dafny models of the parts of Runix that are hardest to get right, with proofs about them. `dafny verify dfyconfig.toml`
checks everything.

## What is modelled

**FAT32 in the block driver** (`Fat*.dfy`, `File*.dfy`, `FsInfo.dfy`, `Volume.dfy`, `DirectoryMap.dfy`). The driver's code
works on a disk of 512-byte sectors: it scans the FAT, reserves and links clusters, mirrors every entry write into all copies,
keeps the FSInfo free count in step, splices chains onto files, grows directories, creates, deletes and reads files. The
methods follow the driver loop by loop on a device (`BlockDevice.dfy`) whose reads and writes may fail; a failed write may leave
any of the sector's bytes old or new. Their contracts are stated on a view of the disk as reserved sectors, FAT copies and
clusters, of which the disk may have only some, and on the file system as a map from names to files. The bodies of the driver's
create, grow and delete proofs are taken for arbitrary names, counts and contents, with no check the driver does not make.
`FatRuns.Run` is the theorem over whole runs. The format is that of the Microsoft FAT32 File System Specification 1.03, sections
"FAT Data Structure" and "FSInfo Sector Structure".

**The virtqueue request protocol** (`VirtioRing.dfy`, `VirtioProtocol.dfy`, `VirtioReach.dfy`, `FsServer.dfy`). Driver and device step over
shared rings with 16-bit indices; the device is any device that takes, writes and completes only chains it was given, and its
steps come between any two of the driver's (section 2.6 of VIRTIO 1.1; section 5.2 for the block device).

**The ELF64 parser and loader** (`Elf.dfy`, `Loader.dfy`, `LoaderTheorems.dfy`), from bytes to a page map with permissions
(chapter 5 of the System V gABI).

**The bounded, hash-chained audit log** (`WormLog.dfy`, `AuditChain.dfy`, `AuditTheorems.dfy`, `AuditEntries.dfy`, `Reconcile.dfy`). The hash
function is a parameter; tamper evidence assumes only that it does not collide, and is not all zero, on the entries of the logs
in question.

**The wire codecs** (`Wire.dfy`, `Marshal.dfy`, `FsCodec.dfy`) and **the constant evaluator** (`Arithmetic128.dfy`,
`Tokenizer.dfy`, `Evaluator.dfy`, `EvaluatorTheorems.dfy`, `ConstTable.dfy`).

## Hypotheses on volumes

`BootSectorInfo.Fits` collects what the driver's FAT code relies on without checking: sectors of 512 bytes (the parser admits
up to 4096, the buffers do not), at most 0x0FFFFFF7 FAT entries (values are masked to 28 bits), the FSInfo sector below the
FAT, and a disk of at most 2^32 sectors that holds the reserved area and the FATs. The FAT may have entries for clusters the disk
does not have, wholly or in part, and the allocator hands them out like any others.

A sound volume (`FileSystem.Sound`) has equal FAT copies, a forest of chains with known owners, a root directory the disk has,
and slots that head chains of their own. Every operation keeps a volume sound, whatever the names, with one exception: growing or
deleting a file that names no cluster starts a walk at FAT entry 0, and what that does depends on what entry 0 holds. It is an
operation like any other if entry 0 ends there, points at itself or leads to a chain no slot heads (`FileSystem.Anchored`), as it
does on volumes of media type 0xF8, whose entry 0 is an end mark; every operation keeps that too. What it does otherwise is
stated exactly in `FatStray.dfy`. On a volume that is also well named (`FileSystem.Named`: no name twice, and
nothing behind an unused slot, in the part of the directory that is scanned) the operations refine changes of the map from names
to files, a create exactly when its name is new, visible and placed within reach.

## Where the code does less than it says

- A walk stops after 1024 clusters. Growing a longer file cuts off what lies behind its 1025th cluster, deleting one frees only
  the first 1024, and a directory's later clusters are not searched. `GrowKeepsWholeChainIff` and `DeleteFreesAllIff` give the
  exact conditions; the contracts of `GrowFile`, `DeleteFile` and the lookups say what happens otherwise.
- A directory of 1024 full clusters still grows, and the entry that goes into the 1025th is never found again: a created name is
  found in its slot exactly if a slot was reusable or the directory had fewer than 1024 clusters, the name can be looked up, and
  no slot before it holds it (`EnteredFoundIff`, `OutOfReachLost`).
- A created name whose first byte is 0x00 or 0xE5 cannot be looked up (`CreatedFoundIff`). One that begins with 0x00 and goes
  into a deleted slot ends the directory there and hides every name behind it that is not also held before it (`OthersKeptIff`).
  A name that exists is entered a second time (`EnterRefinesUpdate` gives the exact condition for a change of the map).
- The driver goes on after a failed data write. A created file whose cluster the disk does not have is entered all the same and
  reads as empty (`CreateFile`, `FileSystemSteps.Stored`). A grown file is linked to its new clusters whether or not their data
  was written, and ends at the first one the disk does not have (`AppendOnDiskIff`, `AppendClusters`).
- A create goes on after a failed write of the end marker. Its slot ends up naming a cluster that reads as free exactly when the
  requests for copy 0 of the marker left the entry as it was, the read failing or the write failing with none of the entry's four
  bytes applied, and those for the slot reached it, in full or in the bytes that matter (`FillEntry`, `MarkerIff`, `SlotNamesIff`).
  No ownership makes such a volume sound, and the next allocation takes the cluster again (`MarkerLost`). One failed write reaches
  it on any sound volume (`LoseMarker`). All other chains and slots are kept at every write.
- A delete frees before it marks, and marks even if freeing failed. A live slot names freed clusters exactly when the freeing got
  to its first entry and the mark was not written; a marked slot leaves clusters in use that nothing names exactly from where
  the freeing stopped (`EraseEntry`, `ErasedPart`).
- A directory that grows into a cluster the disk does not have keeps that cluster reserved, and nothing leads to it
  (`GrowDirectory`, `DirStuckKeeps`).
- On a device that may tear a 32-bit word, the link written last when a chain grows can be left as a mixture of old and new bytes
  that is neither an end mark nor the new cluster; at every other write the chain is whole (`LinkLeaves`, `GrowDirectory`,
  `AppendClusters`). The end mark 0x0FFFFFFF overwritten by 3 can be left as 0x0FFFFF03 (`TornLinkReached`).
- Growing an entry that names no cluster takes the clusters and appends them to what hangs on FAT entry 0, but leaves the entry
  naming none: the file still reads as empty. Deleting one erases FAT entry 0 and what hangs on it (`GrowFile`, `DeleteFile`,
  `GrowStaged`, `FreeStaged`).
- An entry 0 that is no end mark to the driver sends such a grow or delete to wherever the entries of the cluster it names would
  lie, behind the FAT if the FAT does not cover it (`BehindIff`). A delete then changes no word from the FATs on but entry 0 itself,
  and keeps every chain and file, exactly when entry 0 is an end mark or none of the words it is sent to is on the disk, other
  than entry 0, and not zero (`StrayFreeIff`, `QuietKeeps`). For media type 0xF0, entry 0 is 0x0FFFFFF0 and the words lie 0x1FFFFF
  sectors behind the start of each FAT copy: a disk that ends before them is safe, and a longer one that holds anything there loses
  it (`MediaF0`). A grow changes nothing if its walk comes to a cluster whose word the disk lacks; otherwise it writes its link over
  the words of the cluster the walk ends in (`GrowFile`, `StrayWalk`, `StrayLinkIff`).
- Rolling back an allocation restores the volume exactly when the FAT copies agree on what is free and the FSInfo count was
  unknown or at least the number of clusters taken and given back (`RollbackRestores`, `RollbackIsExact`): a smaller, stale count
  saturates at zero on the way down.
- A free count saturates when it is 0 and a cluster is taken, or when it is the largest known one and a cluster is freed; from then
  on it is off (`WritesKeepHint`).
- Each appended chunk goes into the first sector of its new cluster, and a partly filled last cluster is not filled up first.
  `AppendReadsIff` says exactly for which sizes every grown file reads as its old content followed by the data, on disks that
  lack some of the sectors too.
- The documentation calls an incomplete MARSHAL response a so far valid prefix of a message. It need not be: a text is checked
  only when it is whole, and a length field only when all its bytes are there (`IncompleteMayBeDead`). `IncompleteCompletableIff`
  says exactly which incomplete messages can still be completed.
- The audit log's self-check fails after a run in which an event asked for an entry under a subject that carries the summaries'
  prefix before its class's quota was used up, and only then (`VerifiesIff`); one such event is enough (`OneImpostorFails`).
- A log entry's fields are hashed without lengths, so a preimage does not determine them (`FieldsNotDetermined`).
- Tokenizing a constant's text never ends if a letter outside ASCII is reached: it starts an identifier but is not part of one,
  so the same empty identifier is read again and again (`EndlessText`). It is reached exactly if the text before the first such
  letter tokenizes (`EndsIff`); texts without such letters are always read to their end (`AsciiEnds`).
- A constant behind a chain of more than 32 references has no value although its definitions give it one (`FoundIff`).

## Model

| member | source | states |
|---|---|---|
| FatLayout.ParseBootSector | blk-driver-host/src/lib.rs:95-139 | a boot sector parses only with its signature and with fields whose derived sector numbers are consistent |
| FatLayout.ParseFormatted | blk-driver-host/src/lib.rs:95-139 | parsing inverts formatting: each field is read from its own place, whatever the rest of the sector holds |
| FatLayout.SetEntry | blk-driver-host/src/lib.rs:431-444 | writing one 32-bit FAT entry of a sector changes what that entry reads as and no other |
| FatLayout.ClusterResolves | blk-driver-host/src/lib.rs:147-154 | the checked 32-bit cluster-to-sector computation gives the cluster's first sector exactly when the cluster is not reserved and that number fits 32 bits |
| FatLayout.PlacesAre | blk-driver-host/src/lib.rs:147-154 | the sector numbers written out: a cluster starts (c - 2) clusters behind the data start, and the entry of c in copy k lies in sector k * FAT size + c / 128 of the FATs |
| FatLayout.ClustersApart | blk-driver-host/src/lib.rs:147-154 | different clusters occupy disjoint sector ranges |
| FatLayout.OnDiskIff | blk-driver-host/src/lib.rs:147-154 | the view has all of a cluster exactly when its sectors lie on the disk, and its first sector exactly when that one does |
| FatLayout.WholeBelow | blk-driver-host/src/lib.rs:147-154 | below a cluster of which the disk has a sector the disk has every cluster whole |
| FatLayout.FatCopiesApart | blk-driver-host/src/main.rs:1130-1158 | two FAT entries lie in one sector only if they are of the same copy and the same 128-entry block |
| FatLayout.WriteFatCopy | blk-driver-host/src/main.rs:1130-1158 | patching an entry in its sector changes exactly that entry of exactly that copy, for all copies read back from the disk |
| FatLayout.WriteCluster | blk-driver-host/src/main.rs:1652-1657 | writing a data sector the disk has changes exactly that sector of that cluster and leaves the reserved area and all FAT copies alone |
| FatChains.ChainDistinct | blk-driver-host/src/lib.rs:418-420 | a terminated chain never visits a cluster twice: termination alone rules out cycles |
| FatChains.ChainUnique | blk-driver-host/src/main.rs:2684-2694 | a head has at most one chain |
| FatChains.LinkedIsChain | blk-driver-host/src/lib.rs:500-505 | clusters linked each to the next, the last to the end marker, form the chain that visits exactly them |
| FatChains.ForestAdd | blk-driver-host/src/main.rs:1363-1394 | linking free clusters adds one chain to a forest of disjoint chains and leaves the others as they were |
| FatChains.ForestSplice | blk-driver-host/src/main.rs:1738-1796 | repointing the last cluster of one chain at the head of another gives a forest in which the first is followed by the second |
| FatChains.SmallestFreeSize | blk-driver-host/src/main.rs:1404-1421 | an ascending list of the smallest free clusters is no longer than the free set, and as long when it exhausts it |
| FsInfo.EncodeInto | blk-driver-host/src/lib.rs:186-215 | encoding the free count and hint into a valid FSInfo sector reads back as written; the signatures survive |
| FsInfo.ParseFormatted | blk-driver-host/src/lib.rs:186-205 | parsing inverts a byte-by-byte layout of the sector: 52 52 61 41 at 0, 72 72 41 61 at 484, the count at 488, the next cluster at 492, 55 AA at 510 |
| FsInfo.ParsedIsFormatted | blk-driver-host/src/lib.rs:186-205 | a sector that parses is laid out so |
| FsInfo.HintIs | blk-driver-host/src/lib.rs:173-178 | a stored count of 0xFFFFFFFF is no count, any other is the hint |
| FsInfo.AdjustNumbers | blk-driver-host/src/main.rs:1189-1206 | one adjustment rewrites the four bytes from 488 on with the count one down, never below zero, or one up |
| FsInfo.AdjustCount | blk-driver-host/src/main.rs:1189-1206 | an adjustment leaves an unknown count alone and otherwise moves a known one by one, saturating |
| FsInfo.RollbackRestores | blk-driver-host/src/main.rs:1189-1221 | taking and giving back n clusters restores the FSInfo sector exactly when the count is unknown or at least n |
| Volume.WriteEntryFat | blk-driver-host/src/main.rs:1112-1175 | an entry write changes exactly that entry (to the low 28 bits of the value) of the FAT as read through copy 0, keeps all copies equal, and touches no data |
| Volume.WriteEntryHint | blk-driver-host/src/main.rs:1128-1206 | an entry write moves a known free count by exactly the change in the number of zero entries if and only if it does not saturate, that is take a count of 0 down or the largest one up; it says what a saturating write leaves; link rewrites leave the FSInfo sector alone; an exact count stays exact |
| Volume.WritesKeepHint | blk-driver-host/src/main.rs:1128-1206 | over any run of in-range entry writes an exact free count stays exact, the FSInfo signatures survive, and a known count ends known and moved exactly as the number of zero entries if and only if no write saturated it |
| BlockDevice.Torn | blk-driver-host/src/main.rs:530-546 | a failed write may leave any subset of the sector's bytes new and the rest old |
| BlockDevice.BlkDevice.ReadSector | blk-driver-host/src/main.rs:497-528 | returns the sector's contents exactly when the script serves the request and the disk has the sector |
| BlockDevice.BlkDevice.WriteSector | blk-driver-host/src/main.rs:530-546 | replaces one sector exactly when the script serves the request and the disk has it; one that fails tears it as the script says; every state of the disk is kept in a history |
| FatAllocator.WriteFatEntry | blk-driver-host/src/main.rs:1112-1175 | with I/O succeeding all copies and the free count change as specified; with any failures, after every device write the FAT read through copy 0 differs in that entry at most, which is a mixture of its old and new bytes, exactly the one the requests for copy 0 make of it, and is old or new if the device writes whole words; no data changes. For a cluster the FAT does not cover, exactly the words where its entries would lie change, as far as the disk has them, and it succeeds exactly when it has them all |
| FatAllocator.TornEntry | blk-driver-host/src/main.rs:1143-1158 | a torn write of a FAT sector changes no other entry and leaves the written one a mixture of its old and new bytes |
| FatAllocator.AdjustFsInfoFreeCount | blk-driver-host/src/main.rs:1189-1206 | rewrites the FSInfo sector with the adjusted count, whatever fails nothing outside that sector changes |
| FatAllocator.FirstFreeClusterInFatSector | blk-driver-host/src/lib.rs:524-541 | finds the first zero entry of a FAT sector, skipping clusters 0 and 1, or none if there is none |
| FatAllocator.AllocateFreeCluster | blk-driver-host/src/main.rs:1404-1421 | returns the smallest free cluster; none means none is free |
| FatAllocator.FreeClusters | blk-driver-host/src/main.rs:1217-1221 | gives reserved clusters back, leaving every FAT copy as it was before they were reserved |
| FatAllocator.LinkClusters | blk-driver-host/src/main.rs:1387-1392 | writes the link of each reserved cluster; success means the clusters are linked in order and end the chain |
| FatAllocator.AllocateClusterChain | blk-driver-host/src/main.rs:1363-1394 | succeeds exactly when enough clusters are free; then the output is the smallest free clusters ascending, linked into one chain, all other entries of all copies unchanged; when clusters run out everything is rolled back; under any I/O failure no used entry ever changes |
| FatAllocator.RollbackIsExact | blk-driver-host/src/main.rs:1373-1385 | every FAT copy is identical after a rollback, reserved bits included, exactly when the copies agree on what is free; the whole volume is identical exactly when also the free count was unknown or large enough, in particular when it was exact |
| FatChainGrowth.NextClusterInChain | blk-driver-host/src/main.rs:2684-2694 | reads the link of a cluster through FAT copy 0, or for a cluster the FAT does not cover the word where it would lie; none exactly when the request fails or the disk lacks the sector |
| FatChainGrowth.LinkLeaves | blk-driver-host/src/main.rs:1793-1796 | wherever the write of the last link stops, the chain is the old one, the old one followed by the new clusters as they were initialised, or, where words can be torn, its last link is a mixture that is neither an end mark nor the new cluster |
| FatChainGrowth.TornLinkReached | blk-driver-host/src/main.rs:1793-1796 | a torn last link is reached: 0x0FFFFFFF overwritten by 3 with only the low byte applied leaves 0x0FFFFF03 |
| FatChainGrowth.WriteFirstSector | blk-driver-host/src/main.rs:1771-1791 | writes the first sector of a cluster; with I/O succeeding it succeeds exactly when the disk has that sector, and nothing else changes |
| FatChainGrowth.WriteChunks | blk-driver-host/src/main.rs:1771-1791 | puts each 512-byte chunk of the data into the first sector of its new cluster until a write fails, and changes nothing else; with I/O succeeding every cluster whose first sector the disk has gets its chunk, and the result is success exactly when all have one |
| FatChainGrowth.PrepareClusters | blk-driver-host/src/main.rs:1759-1791 | with any failures, after every device write up to the last link the old chain is whole; then the new clusters are a chain of their own, with the first m initialised |
| FatChainGrowth.AppendClusters | blk-driver-host/src/main.rs:1759-1796 | succeeds in allocating exactly when enough clusters are free; with any failures, after every device write the chain is the old one, the old one followed by the new clusters with exactly the first m initialised, or torn in its last link; the link is written even if a data write failed; where the FAT does not cover the cluster to link from, exactly the words where its entries would lie get the link |
| FatDirectoryGrowth.ZeroCluster | blk-driver-host/src/main.rs:2029-2044 | zeroes the sectors the disk has of a cluster; succeeds, with I/O succeeding, exactly when that is all of them; whatever fails, nothing but that cluster changes |
| FatDirectoryGrowth.GrowDirectory | blk-driver-host/src/main.rs:2019-2050 | after every single device write, failed and torn ones included, the directory's chain through copy 0 is the old chain, the old chain plus one all-zero, terminated cluster, or, where words can be torn, torn in its last link; with I/O succeeding it grows exactly when a cluster is free and the disk has the first free one, which otherwise stays reserved and unlinked |
| FatDirectory.NewEntryParses | blk-driver-host/src/lib.rs:294-318 | an entry built from a name, cluster and size parses back to them, unless the name starts with 0x00 or 0xE5 |
| FatDirectory.ParseFormattedSlot | blk-driver-host/src/lib.rs:294-318 | parsing inverts a field-by-field layout of a slot, with six attribute flags of weights 1 to 32: name, cluster and size come from their places, a directory is what has the flag of weight 16, and there is no entry exactly when the first byte is 0x00 or 0xE5 or the four low flags are set and the next two are not |
| FatDirectory.SlotFormatted | blk-driver-host/src/lib.rs:294-318 | every slot is laid out so |
| FatDirectory.NewEntryFormatted | blk-driver-host/src/main.rs:1660-1670 | a created entry has the archive flag alone, the cluster in its two halves, the size, and zeros elsewhere |
| FatDirectory.ResizedParses | blk-driver-host/src/main.rs:1798-1807 | patching the size field changes the parsed size and nothing else |
| FatDirectory.FindFound | blk-driver-host/src/main.rs:2609-2639 | a slot that the scan finds matches the name, and every slot before it was passed over |
| FatDirectory.SlotBytes | blk-driver-host/src/main.rs:2609-2639 | a directory sector holds sixteen slots of 32 bytes, and the slots follow each other through the sectors |
| FatDirectory.FindIff | blk-driver-host/src/main.rs:2609-2639 | a name is found in a slot exactly when that is the first whose bytes hold it and no slot before begins with a zero byte, and not found exactly when such a slot precedes every one that holds it |
| DirectoryMap.CreateRefinesUpdate | blk-driver-host/src/main.rs:1660-1675 | writing a new entry into the first reusable slot updates the directory map at that name and nowhere else, keeping the all-zero tail and the uniqueness of names, if and only if the name is absent and its first byte is neither 0x00 nor 0xE5 |
| DirectoryMap.CreatedFoundIff | blk-driver-host/src/main.rs:1660-1675 | an entry written into the first reusable slot is what a lookup of its name finds exactly when its first byte is neither 0x00 nor 0xE5 and no slot before it holds the name |
| DirectoryMap.OthersKeptIff | blk-driver-host/src/main.rs:1660-1675 | every other name is found where it was exactly when the first byte is not 0x00 or every name behind the slot is also held before it |
| DirectoryMap.GrowKeepsLookup | blk-driver-host/src/main.rs:2019-2050 | appending zeroed slots changes no lookup, keeps the all-zero tail, and makes the first of them the first reusable slot of a full directory |
| DirectoryMap.DeleteRefinesRemoval | blk-driver-host/src/main.rs:1589-1596 | marking a slot deleted removes that name from the map and changes no other lookup |
| DirectoryMap.ResizeRefinesChange | blk-driver-host/src/main.rs:1798-1807 | patching a size changes that name's size in the map and nothing else |
| FileSystem.SlotWritten | blk-driver-host/src/main.rs:1660-1807 | rewriting one directory slot after the FAT and data part of any operation keeps the volume sound, and what hangs on entry 0 out of the way if it was, changes that slot only, and leaves every other slot's file, chain and bytes as they were |
| FileSystemSteps.EnterKeeps | blk-driver-host/src/main.rs:1647-1675 | entering any name, new, taken or invisible, into an unused slot keeps the volume sound, gives the slot a chain of its own and its content where the disk has the cluster, and changes no other slot's file |
| FileSystemSteps.DirGrowthKeeps | blk-driver-host/src/main.rs:2019-2050 | growing the directory keeps the volume sound, appends unused slots and changes no file |
| FileSystemSteps.DirStuckKeeps | blk-driver-host/src/main.rs:2033-2044 | a cluster reserved and never linked changes no chain and no file |
| FileSystemSteps.GrowStaged | blk-driver-host/src/main.rs:1746-1796 | appending clusters behind whatever a walk from any slot's head came to keeps a forest with equal copies and every chain another slot names; from a slot that names no cluster, if entry 0 leads nowhere it should not |
| FileSystemSteps.ForestFrame | blk-driver-host/src/main.rs:1575-1587 | chains whose entries did not change still form a forest, whatever became of the others |
| FileSystemSteps.FreeStaged | blk-driver-host/src/main.rs:1575-1587 | so does freeing what a walk from any slot's head goes through, under the same condition |
| FileMap.EnteredFoundIff | blk-driver-host/src/main.rs:1979-2001 | the driver's own lookup finds a created name in its slot exactly when a slot was reusable or the directory had fewer than 1024 clusters, the name's first byte is neither 0x00 nor 0xE5, and no slot before it holds the name |
| FileMap.OutOfReachLost | blk-driver-host/src/main.rs:1985-1998 | an entry put into the 1025th cluster is lost: every lookup gives what it gave before |
| FileMap.EnterRefinesUpdate | blk-driver-host/src/main.rs:1635-1675 | on a well-named volume a create refines a map update if and only if the name is new and visible and its slot within reach; the name then leads to what was stored |
| FileMap.ResizeRefines | blk-driver-host/src/main.rs:1798-1807 | on a well-named volume resizing the slot a name is found in changes that name's file and no other |
| FileMap.DeleteRefines | blk-driver-host/src/main.rs:1589-1596 | on a well-named volume deleting the slot a name is found in removes that name and no other |
| FileContents.AppendReadsIff | blk-driver-host/src/main.rs:1771-1807 | for every data of a length the grown file reads as old content followed by data, exactly when the size equals what a reader gets of the chain and the data fits the new sectors that can show it (all those reached with one sector per cluster, only the first otherwise), or there is no data to append, or an overstated size meets data that fills every new sector reached; whichever sectors of the old and new clusters the disk lacks |
| FileContents.AppendOnDiskIff | blk-driver-host/src/main.rs:1771-1796 | a file that filled its chain, given data that has a sector in each cluster it needs (one sector per cluster, or at most 512 bytes), reads as old content and data exactly when the disk has the first sector of every cluster the data needs |
| FileContents.ChunksFill | blk-driver-host/src/main.rs:1771-1791 | the sectors a grow writes hold the data, one after the other, and then zeros |
| FatFiles.ScanSector | blk-driver-host/src/main.rs:2609-2639 | what one directory sector decides about a name: found at a slot, end of directory, or go on |
| FatFiles.FindReusableSlot | blk-driver-host/src/lib.rs:468-475 | the first slot of a sector that is free or deleted, or none |
| FatFiles.FindEntryWithLocation | blk-driver-host/src/main.rs:2647-2678 | finds the same entry as the map lookup over the directory's first 1024 clusters, with the sector and offset it lies at |
| FatFiles.FindEntryInDirectory | blk-driver-host/src/main.rs:2609-2639 | is the map lookup over the directory's first 1024 clusters |
| FatFiles.FindOrGrowCreateSlot | blk-driver-host/src/main.rs:1979-2001 | returns the first reusable slot of the directory's first 1024 clusters, or the first of a zeroed cluster it was grown by when all slots are in use; otherwise says why there is none and what changed |
| FatFiles.ReadCluster | blk-driver-host/src/main.rs:2214-2225 | copies one cluster's sectors into the buffer up to the wanted length or the first sector that cannot be read, and nothing else |
| FatFiles.ReadFileContents | blk-driver-host/src/main.rs:2195-2238 | returns the start of the concatenated data of the chain up to the first sector the disk does not have, as long as the smaller of size and buffer; on any FAT, cyclic ones included, it visits at most one cluster per 512 bytes wanted, so at most 8 for 4096 |
| FatOperations.CreateFile | blk-driver-host/src/main.rs:1635-1675 | for any name: the entry is written exactly when a slot is reusable or the directory can grow and a free cluster with a 32-bit sector number is left; it succeeds exactly when the disk has that cluster's first sector; the volume stays sound, no other slot's file changes, and an exact free count stays exact |
| FatWalks.WalkToLast | blk-driver-host/src/main.rs:1746-1757 | ends where the words on the disk lead, from any start, after at most 1024 steps, at the first word of 0x0FFFFFF8 or more; none if a word it comes to cannot be read |
| FatWalks.WalkEndIs | blk-driver-host/src/main.rs:1746-1757 | on a chain, or on what hangs on FAT entry 0, that is the last cluster, or the 1025th of a longer one |
| FatWalks.WalkByNumbers | blk-driver-host/src/main.rs:1746-1757 | a walk ends at a cluster whose 28-bit word is 0x0FFFFFF8 or more, and otherwise goes on where the word says |
| FatWalks.ChainIff | blk-driver-host/src/lib.rs:418-420 | a chain, on the disk and in numbers: covered clusters, each with the next number for its 28-bit word, the last with 0x0FFFFFF8 or more |
| FatWalks.VisitsWalked | blk-driver-host/src/main.rs:2195-2238 | what a delete frees, a reader reads and a lookup searches of a chain is what following the words from its head comes to, up to 1024 clusters |
| FatWalks.TraceByNumbers | blk-driver-host/src/main.rs:1575-1587 | a freeing goes on from a cluster all of whose words the disk has to the value of its word, if that is below 0x0FFFFFF8, and stops nowhere else before its 1024th cluster |
| FatErase.WalkFromIs | blk-driver-host/src/main.rs:1746-1757 | on a sound volume a walk from a slot's head goes through the chain it owns or, if it names no cluster and entry 0 leads nowhere it should not, through FAT entry 0 and the chain that hangs there |
| FatOperations.GrowFile | blk-driver-host/src/main.rs:1738-1807 | goes through exactly when the name is found and enough clusters are free, and reports success exactly when the disk has the first sector of each; the chain becomes its first 1025 clusters followed by the new ones and the file reads as exactly that, cut to the new size; the volume stays sound and no other slot's file changes; an entry that names no cluster stays empty. All this unless the entry names no cluster and FAT entry 0 leads somewhere it should not: then nothing changes if the walk cannot be read, and otherwise the link goes to the words of the cluster the walk ends in |
| FatOperations.GrowKeepsWholeChainIff | blk-driver-host/src/main.rs:1746-1757 | the grown chain is the whole old chain followed by the new clusters exactly when the old one had at most 1025 |
| FatWalks.FreeChain | blk-driver-host/src/main.rs:1575-1587 | frees the first 1024 clusters of a chain, or of FAT entry 0 and what hangs on it, reading each link before erasing it; with any failures, after every device write a first part of the chain is free, at most the next entry torn, the rest and everything else as it was. With I/O succeeding and from any start it zeroes exactly the words its trace says |
| FatWalks.FreeingKeepsChain | blk-driver-host/src/main.rs:1575-1587 | so at every write of a delete every other chain is whole and holds what it held |
| FatOperations.DeleteFreesAllIff | blk-driver-host/src/main.rs:1575-1587 | every cluster of the chain is freed exactly when it has at most 1024 |
| FatOperations.DeleteFile | blk-driver-host/src/main.rs:1566-1596 | succeeds exactly when the name is found; then its slot is marked, exactly the walked clusters are freed, no other slot's file changes and the volume stays sound; unless the entry names no cluster and FAT entry 0 leads somewhere it should not, when the freeing does what its trace says |
| FatEntries.MarkerLost | blk-driver-host/src/main.rs:1658-1675 | a slot that names a cluster which reads as free leaves no ownership under which the volume is sound |
| FatEntries.LoseMarker | blk-driver-host/src/main.rs:1656-1675 | that state is reached: on any sound volume, with only the marker write to copy 0 failing and every other request served, the new slot names the first free cluster, which the next allocation takes again |
| FatEntries.PatchSlot | blk-driver-host/src/main.rs:1660-1675 | with any device, a read-modify-write of one slot leaves exactly what the two requests make of it, byte by byte, and changes nothing else |
| FatEntries.KeptWith | blk-driver-host/src/main.rs:1589-1675 | writes confined to some clusters and one slot keep every chain outside them whole and every other slot and its file as they were |
| FatEntries.MarkerIff | blk-driver-host/src/main.rs:1656-1658 | the attempt to mark a free cluster leaves it reading as free exactly when the read for copy 0 fails, or the write fails with none of the entry's four bytes applied |
| FatEntries.SlotNamesIff | blk-driver-host/src/main.rs:1660-1675 | the requests for a new entry leave a slot that names its cluster exactly when the read works, the name is visible and the write works or, torn, reached the first byte, the attributes and the cluster number wherever the old bytes would have mattered |
| FatEntries.FillEntry | blk-driver-host/src/main.rs:1652-1675 | with any device: after every write all other chains are whole and all other slots stand for the files they did; at the end the slot names a cluster that reads as free exactly when the marker was missed and the entry reached the slot; success means data, marker and entry are all there |
| FatErase.ErasedPart | blk-driver-host/src/main.rs:1575-1587 | which clusters of a deleted chain read as free: those before the place the freeing stopped, and that one if its write left zero |
| FatErase.MarkLeaves | blk-driver-host/src/main.rs:1589-1596 | the mark of a delete leaves the slot as it was or marked, and marked exactly when the read works and the write works or reached the first byte |
| FatErase.EraseEntry | blk-driver-host/src/main.rs:1572-1596 | with any device: after every write all other chains are whole and all other slots stand for the files they did; at the end a live slot names a free cluster exactly when the freeing got to the first entry and the mark was not written, and a marked slot leaves behind exactly the clusters from where the freeing stopped |
| FatStray.StrayFreeIff | blk-driver-host/src/main.rs:1575-1587 | freeing from FAT entry 0 changes nothing from the FATs on but entry 0 of the copies, exactly when entry 0 is an end mark or none of the words where the entries of the cluster it names would lie is on the disk, other than entry 0, and not zero |
| FatStray.QuietKeeps | blk-driver-host/src/main.rs:1575-1587 | a freeing that changes no other word keeps every chain and every file |
| FatStray.MediaF0 | blk-driver-host/src/lib.rs:418-420 | entry 0 of media type 0xF0 is no end mark to the driver and names no cluster of any FAT: a disk that ends within 0x1FFFFF sectors of the FATs loses nothing to such a delete, a longer one loses what it holds in that word |
| FatStray.StrayWalk | blk-driver-host/src/main.rs:1746-1757 | a walk that entry 0 sends to a cluster gives up if the disk lacks its word, and ends there if that is an end mark |
| FatStray.StrayLinkIff | blk-driver-host/src/main.rs:1793-1796 | the link of a grow changes nothing from the FATs on exactly when every word on the disk it is written to holds it already |
| FatStray.BehindIff | blk-driver-host/src/main.rs:1130-1158 | the words of a cluster lie behind the copies they should be in exactly when the FAT does not cover it |
| FatRuns.ReadByName | blk-driver-host/src/main.rs:2301-2316 | on any sound volume, reads the first 4096 bytes of the file the driver's lookup of the name leads to; nothing for an absent name, and of a name that is found nothing exactly when bit 4 of the slot's attribute byte says directory |
| FatRuns.Step | blk-driver-host/src/main.rs:1438-1807 | one operation, unguarded: the volume stays sound and changes slot by slot as specified; on well-formed names the map from names to files changes at the operation's name only, with the exact content, unless a create could not place its name; for a grow or delete of a file that names no cluster, if entry 0 leads nowhere it should not |
| FatRuns.Run | blk-driver-host/src/main.rs:1438-1807 | for any list of creates, grows and deletes, any names and any number of them, on a volume whose entry 0 leads nowhere it should not, or which grows and deletes no file that names no cluster: after every operation the FAT is a forest with equal copies, every slot heads a chain of its own, no other slot's file changed, and an exact free count is exact |
| FatRuns.RunRefines | blk-driver-host/src/main.rs:1438-1807 | a run on well-formed names whose creates each place a new name refines a run on the map from names to files |
| VirtioRing.QueueSizeWraps | blk-driver-host/src/lib.rs:621-627 | queue sizes that pass validation divide 65536, so the slot of a wrapped index is the slot of the count it stands for |
| VirtioRing.ValidSizes | blk-driver-host/src/lib.rs:621-627 | exactly the powers of two from 4 to 256 pass |
| VirtioRing.ReadChainPosted | blk-driver-host/src/virtio.rs:236-269 | following the links of a table written for a chain gives back the chain |
| VirtioRing.Virtqueue.constructor | blk-driver-host/src/virtio.rs:181-208 | a fresh queue with zero indices |
| VirtioRing.Virtqueue.PostChain | blk-driver-host/src/virtio.rs:236-283 | writes a chain a device can read back exactly, publishes it in the next slot, wraps the index, changes nothing else |
| VirtioRing.Virtqueue.PollUsed | blk-driver-host/src/virtio.rs:291-316 | consumes one completion if there is one |
| VirtioProtocol.TakesWhatWasPosted | blk-driver-host/src/main.rs:445-464 | whatever the device finds newly available is the chain of the request just posted |
| VirtioProtocol.PollHit | blk-driver-host/src/main.rs:473-489 | a completion the driver polls is that of the request it posted |
| VirtioProtocol.StepInv | blk-driver-host/src/main.rs:438-546 | every step of driver or device keeps the protocol invariant |
| VirtioProtocol.RunInv | blk-driver-host/src/main.rs:438-546 | the protocol invariant holds in every state of every interleaving |
| VirtioProtocol.OneOutstanding | blk-driver-host/src/main.rs:438-490 | at most one chain is outstanding, and the k-th post uses slot k modulo the queue size however often the index wraps |
| VirtioProtocol.DriverTouchesAlone | blk-driver-host/src/main.rs:497-546 | the driver changes or reads the buffer and changes the descriptors only while nothing is outstanding |
| VirtioProtocol.DeviceSeesRequest | blk-driver-host/src/main.rs:438-546 | as long as the device holds a request, chain, header and write data are those submitted |
| VirtioReach.DeviceMayWrite | blk-driver-host/src/main.rs:445-464 | while it holds a read the device may write bytes 16 to 528 of the buffer, while it holds a write byte 528, and no other byte ever |
| VirtioReach.AnyAnswer | blk-driver-host/src/main.rs:438-546 | from any state between requests on a device not given up, some run answers a read with any given sector, and any request with any given status |
| VirtioReach.FirstRun | blk-driver-host/src/main.rs:438-546 | there is such a state for every valid queue size and buffer |
| VirtioReach.ReadBrings | blk-driver-host/src/main.rs:497-528 | for every sector number and every sector there is a run in which a read of that number brings that sector |
| VirtioProtocol.Preloaded | blk-driver-host/src/main.rs:497-546 | a request is published with status byte 0xFF and its own data, zeros for a read |
| VirtioProtocol.StatusStays | blk-driver-host/src/main.rs:497-546 | the status byte stays 0xFF until the device writes it, so a completion without a status never reads as success |
| VirtioProtocol.HeaderDecodes | blk-driver-host/src/main.rs:553-566 | the 16 header bytes: 0 or 1 for the type, seven zeros, the sector in eight bytes |
| VirtioProtocol.AnswersBelong | blk-driver-host/src/main.rs:473-490 | the k-th answer is the device's completion of the k-th request, as submitted, or "no status" after a timeout |
| VirtioProtocol.QuarantineForever | blk-driver-host/src/lib.rs:577-602 | after one timeout nothing is posted, no ring, descriptor or buffer byte is touched by the driver, and every request is answered "no status" |
| VirtioProtocol.RequestEnds | blk-driver-host/src/main.rs:2727-2737 | whatever the device does, a request takes at most 100000010 driver steps |
| VirtioProtocol.PostingSteps | blk-driver-host/src/virtio.rs:236-283 | the five posting steps of the protocol have the effect of posting the chain: three descriptors of 16, 512 and 1 bytes, linked, with their flags in numbers |
| FsServer.QuarantinedRequestsFail | blk-driver-host/src/main.rs:2287-2357 | after a timeout every authorized, well-sized request is answered "device failed", whatever lookup and buffers say; the other errors come first |
| FsServer.ReadNotMisleading | blk-driver-host/src/main.rs:2287-2317 | a read that meets a quarantined device never returns data, nor "not found" for a missing name |
| FsServer.WriteIff | blk-driver-host/src/main.rs:2326-2357 | each answer to a write with its exact condition; "ok" exactly when authorized, of 512 bytes, on a healthy device, resolved, and completed with status 0 |
| FsServer.ReadIff | blk-driver-host/src/main.rs:2287-2317 | each answer to a read with its exact condition |
| FsServer.WriteAnswered | blk-driver-host/src/main.rs:2326-2357 | over any run the answer is "ok" exactly when the device completed that very request with status 0 |
| Elf.NoSegmentSkipped | kernel-arm/src/elf.rs:314-328 | the segments are those of the loadable headers, one each and in order: no loadable header is skipped |
| Elf.HeaderGivesSegment | kernel-arm/src/elf.rs:314-328 | a program header in the table gives the segment it was written for, each field from its own place |
| Elf.LoadableIff | kernel-arm/src/elf.rs:314-328 | a header gives a segment exactly when its first word is 1 and its fields lie inside the image |
| Elf.FieldsRead | kernel-arm/src/elf.rs:204-276 | fields are read little-endian, exactly where all their bytes are there |
| Elf.Parse | kernel-arm/src/elf.rs:204-276 | succeeds exactly on well-formed images and otherwise names the first failing check |
| Elf.ParsedIff | kernel-arm/src/elf.rs:204-276 | what a well-formed image is, byte by byte |
| Loader.PagePermissions | kernel-arm/src/loader.rs:244-255 | pages are writable and executable at EL0 exactly as the segment asks, never both, and never executable at EL1 |
| LoaderTheorems.PermissionNumbers | kernel-arm/src/loader.rs:244-255 | the descriptor bits as numbers, and the error otherwise |
| LoaderTheorems.ProtectionIff | kernel-arm/src/loader.rs:220-255 | which bits of a descriptor let EL0 write, EL0 execute and EL1 execute |
| Loader.AddressSpace.MapPage | kernel-arm/src/loader.rs:195-201 | maps a fresh page of arbitrary contents, or refuses |
| Loader.FillPage | kernel-arm/src/loader.rs:325-343 | a page holds the segment's bytes that fall on it and zero elsewhere |
| Loader.LoadPages | kernel-arm/src/loader.rs:315-346 | maps and fills exactly the pages of a segment, or stops at a page already mapped or refused |
| Loader.LoadSegmentAt | kernel-arm/src/loader.rs:284-347 | checks and loads one segment; an error means the image cannot be loaded |
| Loader.LoadStack | kernel-arm/src/loader.rs:357-362 | maps the four stack pages, zeroed, and nothing else |
| Loader.Load | kernel-arm/src/loader.rs:276-375 | succeeds exactly on acceptable images whose pages can all be mapped; memory is then what it was with image and stack in it; an error that is returned is true, one about the window naming a range that leaves it; the page count is the number of occupied pages |
| LoaderTheorems.SegmentOkIff | kernel-arm/src/loader.rs:276-351 | which segments are admitted, in numbers: readable, not both writable and executable, between 0x80000000 and 0xBFFEC000 |
| LoaderTheorems.PageIff | kernel-arm/src/loader.rs:276-351 | the pages of a segment are those that hold an address of it |
| LoaderTheorems.StackIff | kernel-arm/src/loader.rs:352-371 | the stack is the four pages below 0xC0000000 |
| LoaderTheorems.StackPageIs | kernel-arm/src/loader.rs:352-371 | a stack page is zero, writable at EL0 and executable nowhere |
| LoaderTheorems.EntryIff | kernel-arm/src/loader.rs:311-351 | the entry lies in a segment with the execute flag |
| LoaderTheorems.SegmentLoaded | kernel-arm/src/loader.rs:315-346 | each address of a segment holds its file byte below the file size and zero above |
| LoaderTheorems.SlackIsZero | kernel-arm/src/loader.rs:325-346 | every other byte of a loaded page is zero, whatever the page held before |
| LoaderTheorems.PagesSafe | kernel-arm/src/loader.rs:284-362 | every loaded page is mapped once, never writable and executable, never in the guard gap |
| LoaderTheorems.GuardStaysUnmapped | kernel-arm/src/loader.rs:104-117 | an unmapped guard gap stays unmapped |
| LoaderTheorems.OrderOfHeaders | kernel-arm/src/loader.rs:284-351 | whether an image is accepted does not depend on the order of its headers |
| LoaderTheorems.PermutedSegments | kernel-arm/src/elf.rs:314-328 | images whose header tables are permutations of each other have the same segments |
| LoaderTheorems.SameSegmentsSameMemory | kernel-arm/src/loader.rs:276-371 | images with the same segments and segment contents, in whatever order, leave the same memory |
| LoaderTheorems.OrderOfLoading | kernel-arm/src/loader.rs:276-371 | for two images that differ only in the order of their program headers: one is accepted exactly when the other is; they leave the same memory exactly when the file bytes of every segment agree, which they do if no segment takes any from the header table |
| WormLog.Preimage | citadel-integration/src/lib.rs:373-404 | what an entry is hashed over begins with the previous hash and the position |
| WormLog.NewEntry | citadel-integration/src/lib.rs:468-504 | a new entry carries the previous hash, the next position and its own hash |
| WormLog.Log.Record | citadel-integration/src/lib.rs:468-504 | appends one entry, keeps the others, and keeps the log verifying |
| WormLog.Log.VerifyChain | citadel-integration/src/lib.rs:617-639 | is true exactly of logs whose links and hashes all agree |
| WormLog.PrefixVerifies | citadel-integration/src/lib.rs:617-639 | every prefix of a verifying log verifies |
| WormLog.RemovalDetected | citadel-integration/src/lib.rs:617-639 | removing any entry but the last of a recorded log is detected |
| WormLog.SwapDetected | citadel-integration/src/lib.rs:617-639 | swapping two entries of a recorded log is detected |
| WormLog.SameEndSameLog | citadel-integration/src/lib.rs:617-639 | two verifying logs with the same last hash have the same length and the same preimages |
| WormLog.FieldsNotDetermined | citadel-integration/src/lib.rs:373-404 | two entries that differ in three fields can share a preimage |
| WormLog.EditHashedIff | citadel-integration/src/lib.rs:373-404 | an edit of one field, subject, instance, tier, permission, reason or shadow outcome, changes what is hashed exactly when it changes the field; only an empty reason hashes like an absent one |
| WormLog.EditDetected | citadel-integration/src/lib.rs:617-640 | such an edit anywhere in a recorded log is detected |
| WormLog.LifecycleDetermined | citadel-integration/src/lib.rs:587-600 | lifecycle entries whose subjects hold no zero byte are determined by their preimages |
| AuditChain.Truncate | kernel-arm/src/audit_chain.rs:218-227 | cuts at the last character boundary within the limit |
| AuditChain.BoundedAudit.constructor | kernel-arm/src/audit_chain.rs:242-247 | an empty chain and fresh counters |
| AuditChain.BoundedAudit.Record | kernel-arm/src/audit_chain.rs:253-274 | appends or counts an event as specified, the whole state; what the appended entry says is `AuditEntries.EventEntry` |
| AuditChain.BoundedAudit.NoteCoalesced | kernel-arm/src/audit_chain.rs:280-282 | counts an event without appending it |
| AuditChain.BoundedAudit.Coalesce | kernel-arm/src/audit_chain.rs:284-319 | counts an event and commits a summary on schedule |
| AuditChain.BoundedAudit.Verify | kernel-arm/src/audit_chain.rs:365-387 | is true exactly when the chain verifies and the counters agree with it |
| AuditTheorems.CapacityNeverDecides | kernel-arm/src/audit_chain.rs:102-113 | a class with quota left always finds room: the total-capacity test decides nothing |
| AuditTheorems.StepClass | kernel-arm/src/audit_chain.rs:253-319 | an event changes its own class as if it were alone, and no other |
| AuditTheorems.ClassesDoNotInterfere | kernel-arm/src/audit_chain.rs:253-319 | for any interleaving a class's counters and answers are those of a run of its events alone |
| AuditTheorems.ChainOnlyExtends | kernel-arm/src/audit_chain.rs:253-319 | the chain only grows and never exceeds 456 entries |
| AuditTheorems.EventsAccounted | kernel-arm/src/audit_chain.rs:253-319 | a class records what asks for an entry up to its quota and counts the rest, saturating; it has one summary per power of four reached |
| AuditTheorems.RecordedPlusDropped | kernel-arm/src/audit_chain.rs:253-319 | for any run recorded plus dropped is what was submitted, until the counter saturates |
| AuditTheorems.SummariesOnSchedule | kernel-arm/src/audit_chain.rs:284-319 | a counted event commits a summary exactly when the count reaches 1, 4, ..., 4^7 |
| AuditEntries.EventEntry | kernel-arm/src/audit_chain.rs:253-268 | after any run, an event answered "recorded" has added exactly one entry, with its subject, its permission, no instance, tier or shadow outcome, and its reason and "[from -> to]" written out |
| AuditEntries.CountedEntry | kernel-arm/src/audit_chain.rs:284-326 | an event answered "coalesced" adds nothing, or exactly one entry: the class's summary, not authorized, with the count in digits and the last reason |
| AuditEntries.CountedNumber | kernel-arm/src/audit_chain.rs:284-326 | the count in the answer is the class's, one more than before, up to 2^64 - 1 |
| AuditEntries.CountedReason | kernel-arm/src/audit_chain.rs:269-273 | what is kept of a counted event: "subject [from -> to]" and ": reason" |
| AuditEntries.CutIsText | kernel-arm/src/audit_chain.rs:218-227 | a reason of more than 120 bytes is cut to the longest whole text within them, and three dots follow |
| AuditEntries.BoundaryIff | kernel-arm/src/audit_chain.rs:218-227 | a text may be cut exactly where what stands before is a text |
| AuditEntries.DecimalIs | kernel-arm/src/audit_chain.rs:291-298 | counts are written in decimal digits that stand for them |
| AuditEntries.NamesDiffer | kernel-arm/src/audit_chain.rs:148-162 | a summary's subject tells its class |
| AuditEntries.QuotasAre | kernel-arm/src/audit_chain.rs:89-90 | which events of each class get an entry, in numbers |
| AuditEntries.ScheduleIs | kernel-arm/src/audit_chain.rs:92-97 | the counts that commit a summary: 1, 4, 16, 64, 256, 1024, 4096, 16384 |
| AuditTheorems.RecordedIff | kernel-arm/src/audit_chain.rs:253-274 | an event gets an entry of its own exactly when it asks for one and fewer events of its class than the quota asked before it |
| AuditTheorems.VerifiesIff | kernel-arm/src/audit_chain.rs:365-387 | the self-check passes after a run exactly when no event asks for an entry under a subject with the summaries' prefix while fewer events of its class than the quota have asked |
| AuditTheorems.OneImpostorFails | kernel-arm/src/audit_chain.rs:365-387 | one such event makes a fresh log fail its self-check |
| AuditTheorems.AlwaysVerifies | kernel-arm/src/audit_chain.rs:365-387 | it passes after every run whose subjects avoid the prefix |
| Reconcile.Compare | kernel-arm/src/audit_chain.rs:448-454 | which keys are new against the previous pass and first in this one |
| Reconcile.ReconcileMemory.Observe | kernel-arm/src/audit_chain.rs:446-474 | over the whole history, a finding is fresh exactly when absent from the previous pass and first in this one; a clean pass is recorded exactly when the previous was not clean |
| Wire.StringExtends | ipc/src/marshal.rs:94-107 | a decoded string is unaffected by further bytes, and what was read is its encoding |
| Wire.StringRoundTrip | ipc/src/marshal.rs:85-107 | decoding an encoded string, whatever follows, gives it back |
| Wire.StringBytes | ipc/src/marshal.rs:85-107 | a string is its length in two bytes, low byte first, and its bytes |
| Wire.Utf8Valid | ipc/src/marshal.rs:85-107 | the UTF-8 encoding of any sequence of characters is accepted as a text |
| Wire.ValidIsUtf8 | ipc/src/marshal.rs:85-107 | and nothing else is |
| Wire.MissingNeeded | ipc/src/marshal.rs:140-155 | bytes that turn a broken-off text into UTF-8 are at least those missing |
| Wire.MissingSupplied | ipc/src/marshal.rs:140-155 | a text that is only broken off can be completed in any room large enough |
| Marshal.WholeIffDecodes | ipc/src/marshal.rs:385-408 | the frame is whole exactly when the message decodes: the fallback is never taken |
| Marshal.FrameLengths | ipc/src/marshal.rs:120-160 | a complete frame is as long as what is decoded of it |
| Marshal.CompleteIffDecodes | ipc/src/marshal.rs:385-408 | complete exactly when plain decoding succeeds, with the same response and length |
| Marshal.DecodeExtends | ipc/src/marshal.rs:355-376 | a decoded response is unaffected by further bytes, and what was read is its encoding |
| Marshal.CompleteStable | ipc/src/marshal.rs:385-408 | complete is stable under further bytes |
| Marshal.MalformedStable | ipc/src/marshal.rs:385-408 | malformed is stable under further bytes, none of which make it decode |
| Marshal.RoundTrip | ipc/src/marshal.rs:334-376 | decoding an encoded response, whatever follows, gives it back and its length |
| Marshal.ResponseBytes | ipc/src/marshal.rs:334-376 | the bytes of every response, with the tags, outcomes, errors, lengths and limits as numbers |
| Marshal.BoundsAre | ipc/src/marshal.rs:334-376 | the limits of a response, in numbers |
| Marshal.PrefixIncomplete | ipc/src/marshal.rs:385-408 | every proper prefix of an encoded response is incomplete |
| Marshal.IncompleteMayBeDead | ipc/src/marshal.rs:109-121 | an incomplete message that nothing can complete |
| Marshal.IncompleteCompletableIff | ipc/src/marshal.rs:126-155 | an incomplete message can be completed exactly when neither its begun length field nor its begun text has gone wrong |
| FsCodec.DecodeTokenAt | ipc/src/fs.rs:100-128 | decodes a token field by field |
| FsCodec.TokenRoundTrip | ipc/src/fs.rs:91-128 | decoding an encoded token gives it back |
| FsCodec.DecodeExtends | ipc/src/fs.rs:179-209 | a decoded request is unaffected by further bytes, and what was read is its encoding |
| FsCodec.RoundTrip | ipc/src/fs.rs:158-209 | decoding an encoded request, whatever follows, gives it back and its length, at most 5213 |
| FsCodec.RequestBytes | ipc/src/fs.rs:158-209 | the bytes of every request, with its tag and every field in its place |
| FsCodec.BoundsAre | ipc/src/fs.rs:158-209 | the limits of a request, in numbers |
| FsCodec.PrefixDoesNotDecode | ipc/src/fs.rs:179-209 | no proper prefix of an encoded request decodes |
| FsCodec.Session.Receive | blk-driver-host/src/main.rs:2553-2564 | takes one byte, decodes, drains or discards as specified |
| FsCodec.NothingYet | blk-driver-host/src/main.rs:2553-2564 | while a request arrives nothing is decoded and nothing discarded |
| FsCodec.FiresAtLastByte | blk-driver-host/src/main.rs:2553-2564 | a request received byte by byte is decoded exactly at its last byte |
| FsCodec.PendingBounded | blk-driver-host/src/main.rs:2545-2565 | whatever arrives, at most 8192 undecoded bytes are kept, and they are discarded exactly when one more does not complete a request |
| FsCodec.ResponseRoundTripIff | ipc/src/fs.rs:256-299 | a response survives the wire exactly when its data is at most 4096 bytes |
| FsCodec.ResponseBytes | ipc/src/fs.rs:256-299 | the bytes of every response, with the error numbers |
| Arithmetic128.BitwiseBits | abi-consistency/src/lib.rs:335-350 | bit by bit the operators are conjunction and disjunction, in range |
| Arithmetic128.DivisionIff | abi-consistency/src/lib.rs:391-406 | exactly what a division gives: the quotient rounded toward zero, and a failure for zero and for the one quotient that does not fit |
| Arithmetic128.ShiftLeftIff | abi-consistency/src/lib.rs:351-374 | exactly what a left shift gives: the low 128 bits as a two's complement number, and a failure outside 0 to 127 |
| Arithmetic128.ShiftRightIff | abi-consistency/src/lib.rs:351-374 | exactly what a right shift gives: the quotient rounded down, and a failure outside 0 to 127 |
| Arithmetic128.SumIff | abi-consistency/src/lib.rs:375-398 | exactly what addition, subtraction and multiplication give: the exact number if it fits, an overflow otherwise |
| Arithmetic128.BitwiseIs | abi-consistency/src/lib.rs:335-350 | the bitwise operators never fail and work on each bit of the two's complement form |
| Arithmetic128.RangeIs | abi-consistency/src/lib.rs:313-330 | the range is that of 128 bits |
| Arithmetic128.Closed | abi-consistency/src/lib.rs:335-406 | every operation on 128-bit numbers gives one or fails |
| Evaluator.Parser.Or | abi-consistency/src/lib.rs:335-342 | parses and computes bitwise or, leaving the position where the parse ends |
| Evaluator.Parser.And | abi-consistency/src/lib.rs:343-350 | parses and computes bitwise and, leaving the position where the parse ends |
| Evaluator.Parser.Shift | abi-consistency/src/lib.rs:351-374 | parses and computes shifts, leaving the position where the parse ends |
| Evaluator.Parser.Sum | abi-consistency/src/lib.rs:375-390 | parses and computes sums, leaving the position where the parse ends; what the symbols mean is `EvaluatorTheorems.SymbolsMean` |
| Evaluator.Parser.Prod | abi-consistency/src/lib.rs:391-406 | parses and computes products, leaving the position where the parse ends |
| Evaluator.Parser.Atom | abi-consistency/src/lib.rs:407-427 | parses and computes atoms, leaving the position where the parse ends |
| Evaluator.Parser.SkipCastsHere | abi-consistency/src/lib.rs:330-334 | skips the casts that follow |
| Evaluator.EvalExpr | abi-consistency/src/lib.rs:313-324 | evaluates all the tokens or says what is wrong |
| EvaluatorTheorems.Parenthesized | abi-consistency/src/lib.rs:335-427 | parentheses put only where needed make any expression readable at a level |
| EvaluatorTheorems.ParenthesesKeepValue | abi-consistency/src/lib.rs:335-427 | they do not change its value |
| EvaluatorTheorems.ExprParses | abi-consistency/src/lib.rs:335-427 | an expression in its context parses to its value and end, or to its first error |
| EvaluatorTheorems.EvaluatesExpressions | abi-consistency/src/lib.rs:313-427 | the tokens of any expression evaluate to its value or its first error |
| EvaluatorTheorems.WrittenEvaluates | abi-consistency/src/lib.rs:313-427 | so do those of an expression written with enough parentheses |
| EvaluatorTheorems.EvaluatesOnlyExpressions | abi-consistency/src/lib.rs:313-427 | tokens with a value are those of an expression with that value |
| EvaluatorTheorems.SymbolsMean | abi-consistency/src/lib.rs:351-406 | what `a + b`, `a - b`, `a * b`, `a << b` and `a >> b` evaluate to, as numbers |
| EvaluatorTheorems.DivisionMeans | abi-consistency/src/lib.rs:391-406 | what `a / b` evaluates to |
| EvaluatorTheorems.BitwiseMeans | abi-consistency/src/lib.rs:335-350 | what `a | b` and `a & b` evaluate to, bit by bit |
| EvaluatorTheorems.ThreeOperands | abi-consistency/src/lib.rs:335-406 | of two operators the one that binds tighter comes first, in the order `|`, `&`, shifts, sums, products, and the left one of two alike |
| ConstTable.ValueOf | abi-consistency/src/lib.rs:207-229 | evaluates all definitions in turn and compares |
| ConstTable.ValueIff | abi-consistency/src/lib.rs:207-229 | a name has a value exactly when it is defined, not too deep, and all its definitions have that value |
| ConstTable.ReferenceHasValue | abi-consistency/src/lib.rs:207-229 | what a constant with a value refers to has one, one level deeper |
| ConstTable.ChainsBounded | abi-consistency/src/lib.rs:207-229 | no chain of references from it is longer than 32 |
| ConstTable.NoCycle | abi-consistency/src/lib.rs:207-229 | no chain of references from it revisits a name |
| ConstTable.GoesRound | abi-consistency/src/lib.rs:207-229 | a constant that refers back to itself has no value |
| ConstTable.DepthMonotone | abi-consistency/src/lib.rs:207-229 | a value found at some depth is found at every smaller one |
| ConstTable.FoundIff | abi-consistency/src/lib.rs:207-229 | a constant whose definitions give it a value is found exactly when no chain of references from it is longer than 32 |
| Tokenizer.Tokenize | abi-consistency/src/lib.rs:241-300 | reads a text token by token |
| Tokenizer.LexOne | abi-consistency/src/lib.rs:245-298 | reads one token, white space or an error |
| Tokenizer.ClassesAre | abi-consistency/src/lib.rs:241-300 | white space, letters and identifier characters by number |
| Tokenizer.LiteralReads | abi-consistency/src/lib.rs:249-276 | binary, octal, decimal and hexadecimal literals, with underscores and type suffixes, denote what their digits do; one without digits or of 2^127 or more is refused |
| Tokenizer.StallsIff | abi-consistency/src/lib.rs:277-283 | a step consumes nothing exactly at a letter outside ASCII, and never consumes one |
| Tokenizer.EndsIff | abi-consistency/src/lib.rs:241-300 | tokenizing never ends, at letter k, exactly when k is the first letter outside ASCII and the text before it tokenizes; a text that gives tokens holds none |
| Tokenizer.EndlessText | abi-consistency/src/lib.rs:277-283 | a text that begins with a letter outside ASCII is never tokenized |
| Tokenizer.AsciiEnds | abi-consistency/src/lib.rs:241-300 | tokenizing a text without such letters always ends |
| Tokenizer.WrittenTokenizes | abi-consistency/src/lib.rs:241-300 | tokenizing written tokens gives them back |
| Tokenizer.TextEvaluates | abi-consistency/src/lib.rs:241-427 | the text of any expression evaluates to its value or its first error |

## Left out

- Long file names: lookups are by 11-byte short name; matching long names across fragments is not modelled.
- Subdirectories: files are created, grown and deleted in the root directory.
- Signatures, keys and tokens: whether a request is authorized is a parameter; SHA-256 is a function parameter.
- Port I/O, the device handshake, logging, system calls and timing: the poll budget is counted, the notification is not.
- Overwriting a file's only sector over IPC and the partial-write proof: one sector write each, covered by the volume lemmas.
- The scanning of source text for constants: a table holds tokenized definitions.
- Tokenizer.Tokenize: what letters are outside ASCII is a parameter; where the source would loop for ever the model returns `Endless`.
- FatOperations.CreateFile: content of at most one sector, as in the driver.
- FatOperations.CreateFile, FatOperations.GrowFile and FatOperations.DeleteFile: stated for a device that serves every request for a
  sector it has; what failing writes can leave is stated of the parts, `FatAllocator.AllocateClusterChain`,
  `FatChainGrowth.AppendClusters`, `FatDirectoryGrowth.GrowDirectory`, `FatEntries.FillEntry` and `FatErase.EraseEntry`.
- FatOperations.GrowFile and FatOperations.DeleteFile: where a file names no cluster and FAT entry 0 leads into the FAT to a cluster
  some slot or the directory owns, only the words written are stated, not what the files then read as.
- Sector buffers patched in place are sector values that are rewritten; the output array of the allocator and the read buffer
  are arrays.
- VirtioProtocol.StepInv: a completion's element and its index are published in one step; the ordering of those two writes on
  the device's side is not modelled.
- VirtioRing.Virtqueue.PostChain and VirtioRing.Virtqueue.PollUsed: they run without the device's steps in between;
  the interleaved form is the protocol's, connected by `PostingSteps`.
- FsServer.QuarantinedRequestsFail: lookup, data and outcome are parameters.
- The socket messages, the eSIM and data modules, and the assembly and boot code: they would add only easy members or none.
