# Storage firmware of the Minimig 832 controller: a verified model

This project models the storage side of the controller firmware under `fw/ctrl_832`, and the small allocator under
`fw/testbed`, and proves that the cached, incremental and indexed code means what a simple description of it says.

- **Cards and FAT files** (`Storage`, `FatChain`, `FatFile`, `FatExamples`, `FatCreate`). A card is an array of
  512-byte sectors that may refuse any transfer. `FatChain` says what a FAT volume means: the chain of a file and the
  card sector of each file sector. `FatFile` is the driver with its one-sector FAT cache and file handles that are
  changed in place; `FatCreate` allocates.
- **Seek indices** (`SeekIndex`, `HardfileIndex`, `CdSeek`) and **byte-granular files** (`RandomAccess`) sit on top
  and answer as if every access walked the chain from the start.
- **ATA disks** (`AtaGeometry`, `AtaDisk`, `RigidDisk`, `Ata`). The guest sees an array of sectors, kept in a file,
  behind a synthetic partition table, on the card or in a partition of it.
- **CD-ROM** (`CdTypes`, `CdLayout`, `CdRead`, `CdTransfer`, `CdAnswers`, `CdDrive`, `CdTrace`, `CdLaws`, `CdRun`).
  Track layout, block reading, and the ATAPI phase machine with live disc exchange, over whole runs.
- **Directory browser** (`DirOrder`, `SortTable`, `DirBrowser`). Eight rows slide over the sorted listing of an
  unsorted directory.
- **Allocator** (`HeapModel`, `HeapLaws`, `Allocator`). Header fields as maps from addresses, two linked lists through
  a head.
- **Floppy tracks** (`FloppyCodec`, `Floppy`), **keyboard queue and display handover** (`Keyboard`, `KeyQueue`,
  `KeyRun`), and **input reports** (`AuxHid`).

The environment is modelled as it can be seen from the code: transfers fail, guests cancel and timers expire whenever
they like. `healthy`, `steady` and `patience` are promises a caller may make about it, and are only used to state when
an operation succeeds. Methods change the fields the firmware changes; each is proved against functions of the card,
the stream or the old state. Where code and laws share such a function, lemmas beside it say what it means in fields,
bytes and constants.

What the proofs found:

- A seek onto the exact end of a file that fills its last allocated cluster fails, because the forward walk reads the
  end-of-chain link (`FatFile.Volume.Seek` has the exact condition, `FatExamples.SeekToEnd` a file). Reading up to
  that end never makes that step.
- `RARead` and `RASeek` ignore a failed step to the next sector. The handle then stands one link behind and reads
  other sectors than it should without reporting it (`FatFile.LagMisreads`, and `FatExamples.ReadBehind` with a file);
  bytes are those of the file exactly while no step was lost (`RandomAccess.RAFile.LagTells`,
  `RandomAccess.RAFile.Read`).
- `FileCreate` changes the cached FAT sector before writing it. When that write fails the cache claims a link the card
  may not have (`FatCreate.StoreFat`, `FatCreate.StaleEntry`).
- `FileCreate` looks through the whole FAT, also at entries behind the last data cluster. On a full volume it can hand
  out such an entry (`FatCreate.LowestInData`, `FatExamples.AllocateBehind`), and it treats a free FAT32 entry with
  reserved bits set as taken (`FatCreate.FreeButTaken`, `FatExamples.ReservedEntry`).
- A whole card given to the guest as a disk can be written under the file system; the FAT cache then stays right
  exactly if the cached sector is not overwritten with something else (`Ata.Drive.WriteSectors`).
- The synthetic partition table tells the guest of a partition that ends with the last cylinder. Unless the file is
  made of whole cylinders, that is beyond the end of the file, and those blocks are refused
  (`RigidDisk.PartitionHolds`, `Ata.Drive.Admit`).
- A cluster number beyond 16 bits, or 28 bits on FAT32, does not survive the directory entry
  (`FatCreate.ClusterRoundTrip`). Such a number is no data cluster, and it takes a FAT with more entries than its own
  links can name to find one.
- SCAN_INIT_FIRST leaves the rows as they are when it finds nothing (`DirBrowser.Browser.ScanInitFirst`). The menu
  then starts over with SCAN_INIT on one of its two ways up (`fw/ctrl_832/menu.c:1077-1085`), but not on the other
  (`fw/ctrl_832/menu.c:987-998`), where the rows stay those of the directory left (`DirBrowser.Browser.GoBack`,
  `DirBrowser.Stale`).
- A rigid disk block written to block 0 of the boot disk reads back changed exactly if its flags differ from the usual
  ones (`AtaDisk.ReadBackExact`).

## Model

| member | source | states |
|---|---|---|
| Storage.Card.Read | fw/ctrl_832/mmc.c:288-349 | A single-sector read either delivers the addressed sector or fails without data; on a working card every sector in range is readable. |
| Storage.Card.ReadMultiple | fw/ctrl_832/mmc.c:432-505 | A multi-sector read delivers the run, or a prefix of it when it breaks off. |
| Storage.Card.Write | fw/ctrl_832/mmc.c:507-568 | A write that succeeds changes exactly the addressed sector; a failed one may leave that sector torn and no other. |
| FatFile.Volume.NextLink | fw/ctrl_832/fat.c:1315-1347 | The lookup through the one-sector cache returns the link stored on the card and keeps the cache equal to the card. |
| FatFile.Volume.Seek | fw/ctrl_832/fat.c:1448-1519 | A successful seek stands on the target with the cluster a walk from the start reaches, following exactly the links between; on a working card, up to the file's size, it succeeds if and only if the target lies in the cluster already held or its link is no end mark; every other outcome inside the file leaves the handle usable. |
| FatFile.Volume.WalkForward | fw/ctrl_832/fat.c:1478-1514 | The forward loop terminates, stops on the cluster of the target, and never follows the end-of-chain mark as a cluster. |
| FatFile.Volume.NextSector | fw/ctrl_832/fat.c:1354-1396 | Advances one sector; the number of links the handle is behind grows by one exactly when a link could not be read. |
| FatFile.Volume.FileRead | fw/ctrl_832/fat.c:1521-1533 | Reads the card sector the handle's cluster and position name. |
| FatFile.Volume.FileReadChecked | fw/ctrl_832/fat.c:1543-1549 | Returns exactly the file sector under the position, and succeeds on a working card anywhere before the end. |
| FatFile.Volume.ReadRun | fw/ctrl_832/fat.c:1559-1580 | One run of a long read stays in a cluster, delivers consecutive file sectors and leaves the handle usable even when it breaks off. |
| FatFile.Volume.Advance | fw/ctrl_832/fat.c:1571-1576 | Moving past a run never follows the link behind the last sector of the file. |
| FatFile.Volume.ReadEx | fw/ctrl_832/fat.c:1551-1583 | Returns exactly the consecutive file sectors from the position on; the checked form refuses runs beyond the whole sectors of the file. |
| FatFile.Volume.FileWriteChecked | fw/ctrl_832/fat.c:1595-1609 | Writes only the card sector of the current file sector, only for a writable file, and reads back what was written; no FAT sector changes. |
| FatFile.LagMisreads | fw/ctrl_832/rafile.c:36-39 | A handle that ignored a failed link reads the wrong card sector: its address is right if and only if no link was missed. |
| FatExamples.SeekToEnd | fw/ctrl_832/fat.c:1478-1511 | On a working card, a seek from the beginning of a one-sector file that fills its only cluster to its end fails. |
| FatExamples.ReadBehind | fw/ctrl_832/rafile.c:36-39 | A handle one link behind reads, successfully, the first sector of a two-sector file where the second was wanted, and they differ. |
| FatExamples.FullVolume | fw/ctrl_832/fat.c:1672-1757 | A volume whose data clusters are all taken, and whose FAT has a free entry behind them, which is the lowest. |
| FatExamples.AllocateBehind | fw/ctrl_832/fat.c:1672-1721 | Allocating on that volume hands out that entry's number, which is no data cluster. |
| FatExamples.ReservedEntry | fw/ctrl_832/fat.c:1688-1692 | A FAT32 sector in which a cluster's link is 0 and the search takes it for used. |
| FatFile.TargetInClusters | fw/ctrl_832/fat.c:1459-1463 | A seek target the size check lets through lies in the file's clusters or is exactly its end. |
| FatFile.SectorStep | fw/ctrl_832/fat.c:1359-1369 | One sector further is in the same cluster unless it opens the next one at offset 0. |
| FatFile.RunEnd | fw/ctrl_832/fat.c:1564-1566 | A run limited to the rest of the cluster ends in the cluster or at the beginning of the next. |
| FatChain.ChainInjective | fw/ctrl_832/fat.c:1478-1514 | The clusters of a well-formed file are pairwise different. |
| FatChain.FileAddressInjective | fw/ctrl_832/fat.c:1595-1609 | Different sectors of a file lie at different card addresses. |
| FatChain.FileAddressExact | fw/ctrl_832/fat.c:1597-1603 | The 32-bit address arithmetic is exact and stays on the card for every sector of a well-formed file. |
| FatChain.RunSectors | fw/ctrl_832/fat.c:1561-1569 | A run inside a cluster is the consecutive file sectors. |
| FatChain.ChainFrame | fw/ctrl_832/fat.c:1315-1347 | Chains depend on the first FAT only. |
| FatChain.SectorBytes | fw/ctrl_832/rafile.c:29-42 | The bytes of a file are those of its sectors, in order. |
| FatChain.LinkLittleEndian | fw/ctrl_832/fat.c:1345-1346 | An entry that holds a number, least significant byte first, decodes to that number, on FAT32 to its lower 28 bits. |
| FatChain.LinkPlace | fw/ctrl_832/fat.c:1323-1332 | The first FAT holds 128 or 256 links to a sector, cluster after cluster. |
| FatChain.EndMarkBounds | fw/ctrl_832/fat.c:1500-1511 | Links from 2 to 0xFFF7, or to 0x0FFFFFF7 on FAT32, are followed, and no others. |
| FatChain.LeastSectors | fw/ctrl_832/fat.c:1459-1463 | A file takes the least number of sectors, and of clusters, that hold its bytes. |
| FatChain.FilePlace | fw/ctrl_832/fat.c:1521-1533 | Sector r of cluster q of a file lies r sectors into the data of the cluster reached by q links, where cluster 2 is the first. |
| FatCreate.FindUnused | fw/ctrl_832/fat.c:1670-1757 | The search finds the lowest free cluster from 2 up, or reports that there is none. |
| FatCreate.Allocate | fw/ctrl_832/fat.c:1692-1721 | A finished allocation marks that cluster end of chain in every FAT copy and changes nothing else; each way to fail leaves exactly what had been written by then, and the cache equals the card except after a failed write of the first FAT, where it does if and only if the card stored the sector all the same. |
| FatCreate.FileCreate | fw/ctrl_832/fat.c:1632-1760 | Writes the entry to the first slot of the directory that was never used, with the lowest free cluster in it, which reading the entry gives back if and only if it fits the field; the final card is an allocation and that one directory sector; on it the cluster's link is end of chain, every other link is as before, FAT copies that agreed agree, a file there is well formed if and only if it is a data cluster, no file shares it, and every terminated file that does not own the directory sector keeps its chain and contents; a full FAT is answered only when no entry is free, and then, without a slot, or after a failed read, nothing changes; each failed write leaves exactly what had been written by then. |
| FatCreate.CreatedLaw | fw/ctrl_832/fat.c:1692-1744 | What an allocation and the write of a directory sector together mean for links, FAT copies and files. |
| FatCreate.SyncKept | fw/ctrl_832/fat.c:1712-1740 | A write outside the FATs leaves FAT copies that agreed in agreement. |
| FatCreate.FreeButTaken | fw/ctrl_832/fat.c:1688-1692 | A cluster inside the table whose link says free is taken for used if and only if the volume is FAT32 and the reserved bits of its entry are not all 0. |
| FatCreate.FindSlot | fw/ctrl_832/fat.c:1651-1668 | The search through the directory stops at the first slot that was never used, or shows there is none. |
| FatCreate.CreateAt | fw/ctrl_832/fat.c:1670-1757 | The allocation followed by the directory entry, with the handle opened on the new cluster; each way to fail leaves exactly what had been written by then. |
| FatCreate.SurviveBoth | fw/ctrl_832/fat.c:1692-1740 | An allocation and the write of a directory sector together leave the chain and the contents of every terminated file that does not own that sector. |
| FatCreate.WriteElsewhere | fw/ctrl_832/fat.c:1724-1744 | A write outside the FATs leaves every file that does not own the sector. |
| FatCreate.EntryPut | fw/ctrl_832/fat.c:1724-1744 | The entry written to a slot is the entry read from it, and the other slots of the sector stay. |
| FatCreate.StoreFat | fw/ctrl_832/fat.c:1694-1710 | The cached FAT sector is changed before it is written, so after a failed write cache and card agree if and only if the write took effect. |
| FatCreate.StaleEntry | fw/ctrl_832/fat.c:1699-1710 | A concrete difference: the marked sector is never the one with the free entry. |
| FatCreate.StoreCopies | fw/ctrl_832/fat.c:1712-1721 | The same sector goes to the same place of every further FAT copy. |
| FatCreate.AllocatedLinks | fw/ctrl_832/fat.c:1692-1710 | The cluster's link becomes end of chain and no other link changes. |
| FatCreate.AllocatedInSync | fw/ctrl_832/fat.c:1712-1721 | FAT copies that agreed before an allocation agree after it. |
| FatCreate.ChainKept | fw/ctrl_832/fat.c:1692-1710 | No file whose last link is not 0 loses or gains a link, and the new cluster belonged to none. |
| FatCreate.FileKept | fw/ctrl_832/fat.c:1692-1721 | Every such file stays well formed with the same contents. |
| FatCreate.NewFile | fw/ctrl_832/fat.c:1745-1747 | The new file is well formed if and only if the cluster found is a data cluster. |
| FatCreate.LowestInData | fw/ctrl_832/fat.c:1672-1757 | The search also looks at FAT entries behind the last data cluster: it finds a data cluster if and only if one is free. |
| FatCreate.CopyLaws | fw/ctrl_832/fat.c:1714-1716 | FAT copies do not overlap each other or the data area. |
| FatCreate.OutsideExactly | fw/ctrl_832/fat.c:1714-1716 | A sector lies outside the FATs exactly if no copy of a FAT sector lies there. |
| FatCreate.ClusterRoundTrip | fw/ctrl_832/fat.c:1732-1733 | The cluster written to a directory entry is the cluster opening the file reads if and only if it fits the field: 16 bits, or 28 bits on FAT32. |
| FatCreate.ClusterPlace | fw/ctrl_832/fat.c:1732-1733 | The low half of the cluster stands in bytes 26 and 27 of the entry, the high half, on FAT32 only, in 20 and 21, and no other byte changes. |
| FatCreate.EntryBytes | fw/ctrl_832/fat.c:1692-1702 | A FAT entry is free if all its bytes are 0, and becomes FF FF, or FF FF FF 0F on FAT32, with no other byte of the sector changed. |
| FatCreate.SlotBytes | fw/ctrl_832/fat.c:1651-1668 | Slots are 32 bytes, and one was never used exactly if its first byte is 0. |
| HardfileIndex.Hardfile.BuildHardfileIndex | fw/ctrl_832/hdd.c:1018-1040 | Builds, with the smallest stride from 128 sectors up that needs at most 1024 anchors, the cluster of every stride-th sector; a read failure leaves no index. |
| HardfileIndex.Hardfile.IndexTells | fw/ctrl_832/hdd.c:1018-1040 | Entry i of the index is the cluster of sector i times the stride, for all such sectors of the file, of which there are at most 1024. |
| HardfileIndex.Hardfile.HardFileSeek | fw/ctrl_832/hdd.c:1042-1059 | A seek through the index ends on the same cluster and sector as a walk from the start, follows fewer links than a stride or than one FAT sector holds, and succeeds on a working card for every sector of the file. |
| HardfileIndex.Hardfile.NeverBeyondTable | fw/ctrl_832/hdd.c:1048-1049 | The guard on the table index never fires for a built index. |
| HardfileIndex.Hardfile.LandingCluster | fw/ctrl_832/hdd.c:1050-1058 | The anchor used lies at or before the target, fewer links away than a stride. |
| HardfileIndex.Hardfile.SmallestShift | fw/ctrl_832/hdd.c:1028-1030 | The stride search ends, at the smallest stride that fits the table. |
| HardfileIndex.StretchDistance | fw/ctrl_832/hdd.c:1050-1053 | Two sectors the mask test puts in one FAT sector are fewer links apart than it holds. |
| SeekIndex.AnchorDistance | fw/ctrl_832/cdrom_image.c:292-297 | An anchor is fewer links from any sector it serves than a stride has clusters. |
| SeekIndex.AnchorInFile | fw/ctrl_832/hdd.c:1033-1036 | Every anchor lies inside the file. |
| SeekIndex.StrideFactor | fw/ctrl_832/hdd.c:1023-1029 | Every stride is a multiple of 128 sectors, hence of every cluster size. |
| SeekIndex.AnchorsFrame | fw/ctrl_832/hdd.c:1033-1036 | The index stays right as long as the first FAT does not change. |
| RandomAccess.RAFile.Read | fw/ctrl_832/rafile.c:5-62 | Returns the next bytes of the file and advances by their number, across the leftover buffer, whole sectors and the tail; on a working card it succeeds if and only if the read does not pass the end of the file's last sector; on any card every byte of a successful read is the file's own, read from at most as many links behind as were missed, one more at most for each cluster entered, and exact if none was. |
| RandomAccess.RAFile.LagTells | fw/ctrl_832/rafile.c:36-39 | While the handle stands in the file, no link was missed if and only if its cluster is the right one, that is, if and only if the next sector is read from the right place. |
| RandomAccess.RAFile.SlippedMore | fw/ctrl_832/rafile.c:29-42 | The bytes of one more sector, read from where the handle stands. |
| RandomAccess.RAFile.SlippedExact | fw/ctrl_832/rafile.c:5-62 | Bytes read with no link missed are exactly those of the file. |
| RandomAccess.RAFile.FetchWhole | fw/ctrl_832/rafile.c:36-39 | One whole sector comes from where the handle stands, and the handle falls behind only when it enters another cluster. |
| RandomAccess.RAFile.Seek | fw/ctrl_832/rafile.c:104-121 | Moves to any offset in the file with the buffer holding the begun sector; a seek that succeeds leaves handle and cursor together, at most one link behind, and that only in the middle of a sector behind which another cluster begins. |
| RandomAccess.RAFile.ReadWhole | fw/ctrl_832/rafile.c:27-42 | The aligned loop delivers whole sectors and notes when a step to the next sector was lost. |
| RandomAccess.RAFile.Drain | fw/ctrl_832/rafile.c:10-25 | The leftover of the begun sector comes first. |
| RandomAccess.RAFile.ReadTail | fw/ctrl_832/rafile.c:44-60 | The last, partial sector is kept for the next read. |
| RandomAccess.Run | fw/ctrl_832/rafile.c:5-121 | Any interleaving of reads and seeks inside the file answers like an array of bytes with a cursor. |
| CdSeek.SeekCache.SelectFile | fw/ctrl_832/cdrom_image.c:263-283 | Afterwards the cache serves the requested file of the requested image; a failure leaves it serving nothing. |
| CdSeek.SeekCache.ChooseStride | fw/ctrl_832/cdrom_image.c:272-274 | The stride is a multiple of 128 sectors and leaves at most 1024 anchors. |
| CdSeek.SeekCache.FillIndex | fw/ctrl_832/cdrom_image.c:275-279 | Every anchor of the file holds its cluster, inside the table. |
| CdSeek.SeekCache.ReadBlock | fw/ctrl_832/cdrom_image.c:292-302 | A sector read through an anchor is the sector of the file, a bounded number of links away. |
| CdSeek.SeekCache.ReadBytes | fw/ctrl_832/cdrom_image.c:285-312 | Any stretch of the file comes back exactly, across sectors and clusters; a failure invalidates the cache. |
| CdSeek.SeekCache.Invalidate | fw/ctrl_832/cdrom_image.c:20-23 | The cache serves nothing. |
| CdSeek.SeekCache.AnchorInRange | fw/ctrl_832/cdrom_image.c:293-296 | The anchor of any sector of the file is inside the table. |
| CdLayout.Layout | fw/ctrl_832/cdrom_image.c:90-135 | Accepts exactly when the CUE sheet has a layout over its files, and then computes that one layout: gaps, starts, ends and byte offsets, in 32 bits without wrap. |
| CdLayout.LayoutExactly | fw/ctrl_832/cdrom_image.c:90-135 | A layout is exactly what the fields of the sheet require of every track: INDEX 00 not behind INDEX 01, where it begins as block and byte, where it ends, and that it lies in its file. |
| CdLayout.PregapExample | fw/ctrl_832/cdrom_image.c:98-130 | A sheet of a data and an audio track with a stored pregap between them, and its layout. |
| CdLayout.TracksInOneFile | fw/ctrl_832/cdrom_image.c:98-122 | In a laid-out disc, a track that follows another in the same file ends it at its INDEX 00, or at INDEX 01 without one, and begins INDEX 01 minus that plus the pregap later. |
| CdLayout.TrackOpensFile | fw/ctrl_832/cdrom_image.c:99-122 | The first track of a file begins with its byte 0, and its INDEX 01 and pregap stand before it. |
| CdLayout.TrackClosesFile | fw/ctrl_832/cdrom_image.c:123-130 | The last track of a file takes the rest of it in whole sectors. |
| CdLayout.PlaceTrack | fw/ctrl_832/cdrom_image.c:95-131 | One track placed keeps the tracks before it and agrees with every possible layout. |
| CdLayout.EndPrevious | fw/ctrl_832/cdrom_image.c:103-112 | The previous track in the same file ends where this one begins. |
| CdLayout.Begin | fw/ctrl_832/cdrom_image.c:113-122 | Gap, start and offset follow from what was placed before. |
| CdLayout.EndFile | fw/ctrl_832/cdrom_image.c:123-130 | The last track of a file ends with the file, whose rest is whole sectors. |
| CdLayout.Add | fw/ctrl_832/cdrom_image.c:83-88 | Adds, or refuses exactly the sums that leave 32 bits. |
| CdLayout.DivisionGuard | fw/ctrl_832/cdrom_image.c:106-115 | The division before a multiplication refuses exactly the products beyond the room. |
| CdLayout.WholeSectors | fw/ctrl_832/cdrom_image.c:124-127 | The rest of a file is a number of sectors if and only if its size is a multiple. |
| CdRead.TracksOrdered | fw/ctrl_832/cdrom_image.c:113-129 | Tracks follow each other: a later track begins where or after an earlier one ends. |
| CdRead.Partition | fw/ctrl_832/cdrom_image.c:319-324 | Every block below the disc's size lies in exactly one track, gap included. |
| CdRead.CoveredByFirst | fw/ctrl_832/cdrom_image.c:321-322 | The first track whose end lies beyond a block is the one that covers it. |
| CdRead.ExtentsApart | fw/ctrl_832/cdrom_image.c:113-131 | Byte extents of tracks that share a file are ordered and disjoint. |
| CdRead.FilesOrdered | fw/ctrl_832/cdrom_image.c:113-131 | Files are used in order. |
| CdRead.SlotInExtent | fw/ctrl_832/cdrom_image.c:334-344 | The bytes read for a block lie inside its own sector of the track's extent. |
| CdRead.FindTrack | fw/ctrl_832/cdrom_image.c:321-324 | The search finds that first track. |
| CdRead.ReadBlock | fw/ctrl_832/cdrom_image.c:314-346 | Returns zeros in pregaps, otherwise the 2048 user bytes of the block's own sector for every data format, and refuses audio and other forms; out of range if and only if the block number is. |
| CdRead.BlockWithoutData | fw/ctrl_832/cdrom_image.c:325-333 | Audio tracks are refused, and a block of a pregap reads as 2048 zeros. |
| CdRead.BlockMode1 | fw/ctrl_832/cdrom_image.c:334-344 | The 2048 bytes of a Mode 1 block stand 16 bytes into a raw sector, and at the beginning of a cooked one. |
| CdRead.BlockMode2 | fw/ctrl_832/cdrom_image.c:334-344 | Those of a Mode 2 block stand 8 bytes further, behind a subheader that must say Form 1, twice alike. |
| CdDrive.Drive.CheckReady | fw/ctrl_832/cdrom.c:61-73 | A pending unit attention is reported to the guest, once, with its error events, before anything is said about the disc. |
| CdAnswers.ReadsExactly | fw/ctrl_832/cdrom.c:284-362 | A packet starts a READ if and only if it is well formed, no unit attention is pending, a disc is loaded, and all requested blocks are on it. |
| CdAnswers.DiscTold | fw/ctrl_832/cdrom.c:290-291 | TEST UNIT READY, READ CAPACITY, READ TOC and the READs are answered with the unit attention if and only if one is pending, which discharges it, and with no medium if and only if none is loaded. |
| CdAnswers.Fates | fw/ctrl_832/cdrom.c:284-397 | Which commands there are, what becomes of one for another unit or of an unknown one, and what those that need a disc are told without one or while an attention is pending. |
| CdAnswers.ReadFates | fw/ctrl_832/cdrom.c:342-362 | The fate of a READ that finds the disc ready, from the bytes of its packet: refused for other bits or for blocks beyond the disc, complete without blocks, or begun. |
| CdAnswers.PageFates | fw/ctrl_832/cdrom.c:294-325 | TEST UNIT READY, REQUEST SENSE and INQUIRY: what they refuse, and which page they offer, cut to how many bytes. |
| CdAnswers.CapacityFate | fw/ctrl_832/cdrom.c:326-334 | READ CAPACITY names the last block and 2048 bytes to the block. |
| CdAnswers.SenseTells | fw/ctrl_832/cdrom.c:303-308 | Key, code and qualifier stand in bytes 2, 12 and 13 of sense data. |
| CdAnswers.InquiryTells | fw/ctrl_832/cdrom.c:316-323 | The inquiry page tells of a removable CD drive, with its names. |
| CdAnswers.ModeFates | fw/ctrl_832/cdrom.c:241-282 | MODE SENSE answers three pages, with their present, changeable or default values, and refuses all others. |
| CdAnswers.ModesTell | fw/ctrl_832/cdrom.c:241-282 | The contents of those pages: lengths, write protection, speeds, and the lock. |
| CdAnswers.TocFates | fw/ctrl_832/cdrom.c:196-240 | READ TOC: what it refuses, and which table it offers, cut to how many bytes. |
| CdAnswers.SessionTells | fw/ctrl_832/cdrom.c:204-215 | The session table names the first track with data, or the first of all, and where it begins. |
| CdAnswers.TrayFates | fw/ctrl_832/cdrom.c:363-392 | What tray and lock requests are refused, and how they move the tray and the lock. |
| CdAnswers.AfterTells | fw/ctrl_832/cdrom.c:284-397 | Every refusal is kept as sense data and a reported attention is over; TEST UNIT READY and REQUEST SENSE clear the sense data, and other commands but those of the tray and the lock change nothing. |
| CdAnswers.SeenTells | fw/ctrl_832/cdrom.c:42-59 | What the guest sees of each verdict, register by register. |
| CdAnswers.BuildToc | fw/ctrl_832/cdrom.c:196-240 | Accepts exactly the table formats and first tracks there are, and builds that table track by track. |
| CdAnswers.ContentsTell | fw/ctrl_832/cdrom.c:214-238 | The table lists, in order and with their places, the tracks from the one asked for on, and then the size of the disc; its header gives its length and the first and last track. |
| CdAnswers.AddressRoundTrip | fw/ctrl_832/cdrom.c:184-194 | A block is read back from its address, in minutes, seconds and frames if and only if its minutes fit a byte. |
| CdAnswers.ModePage | fw/ctrl_832/cdrom.c:241-282 | The header of a mode page gives its length. |
| CdDrive.Drive.Commit | fw/ctrl_832/cdrom.c:75-83 | Discs are exchanged only between commands; the new one stands behind a unit attention and the seek cache is emptied. |
| CdDrive.Drive.Complete | fw/ctrl_832/cdrom.c:48-52 | Ends a command without data. |
| CdDrive.Drive.Fail | fw/ctrl_832/cdrom.c:54-59 | Ends a command with sense data and without data. |
| CdDrive.Drive.Respond | fw/ctrl_832/cdrom.c:171-182 | Offers a prepared answer up to the allocation length, or completes when that is nothing. |
| CdDrive.Drive.StartRead | fw/ctrl_832/cdrom.c:348-362 | Accepts exactly the block ranges on the disc. |
| CdDrive.Drive.Inform | fw/ctrl_832/cdrom.c:293-341 | Each packet that only asks for information is refused or answered, with its page and length, exactly as decided; sense data are delivered and cleared. |
| CdDrive.Drive.RequestSense | fw/ctrl_832/cdrom.c:298-310 | The sense data of the last error are delivered once and cleared. |
| CdDrive.Drive.SendToc | fw/ctrl_832/cdrom.c:196-240 | The table of contents of the disc in the drive is offered or refused exactly as decided. |
| CdDrive.Drive.SendModes | fw/ctrl_832/cdrom.c:241-282 | So are the mode pages. |
| CdDrive.Drive.Execute | fw/ctrl_832/cdrom.c:292-397 | Past the tests for unit attention and disc, a packet does exactly what is decided: it starts a READ, moves the tray, locks or unlocks, answers, or is refused. |
| CdDrive.Drive.Lock | fw/ctrl_832/cdrom.c:385-392 | The lock moves exactly on a well-formed request. |
| CdDrive.Drive.Read | fw/ctrl_832/cdrom.c:342-362 | A READ starts, completes empty, or is refused exactly as decided. |
| CdDrive.Drive.Dispatch | fw/ctrl_832/cdrom.c:284-397 | Every packet has exactly the fate decided for it by unit attention, disc, lock and sense data: events, transfer, and the state afterwards. |
| CdDrive.Drive.StartStop | fw/ctrl_832/cdrom.c:363-384 | The tray moves exactly on load and eject requests, not while locked, and every change raises a unit attention. |
| CdDrive.Drive.FetchBlock | fw/ctrl_832/cdrom.c:434-449 | The next block of a READ is that of the disc in the drive; the range error cannot occur. |
| CdDrive.Drive.SendData | fw/ctrl_832/cdrom.c:450-461 | One data phase carries the next bytes, at most the limit; END comes with the last phase and no other; at the end the phases make up exactly the blocks requested. |
| CdDrive.Drive.MoveData | fw/ctrl_832/cdrom.c:432-461 | One data phase of the transfer goes out, or its READ fails with error events and no data; on a working card a READ of good blocks moves on. |
| CdDrive.Drive.Poll | fw/ctrl_832/cdrom.c:399-462 | A replaced, reset or expired transfer sends no further data; a poll without packet or room changes nothing; otherwise a packet has exactly the fate decided for it, or one data phase goes out, of a READ the next bytes, of an answer the beginning of what is left of its page; an attention is only discharged by its error events. |
| CdDrive.Drive.Abandon | fw/ctrl_832/cdrom.c:408-418 | A reset raises a unit attention and unlocks; a mere replacement leaves both alone. |
| CdDrive.Drive.Command | fw/ctrl_832/cdrom.c:491-534 | A packet command is accepted exactly for the attached unit, and its transfer limit is all of the byte count asked for that is even, 2048 for none or for more; what the guest sees of every command is stated event by event; discs waiting are exchanged first. |
| CdDrive.Drive.Answer | fw/ctrl_832/cdrom.c:498-534 | Identification, reset, diagnosis, refusals and the call for a packet are answered with exactly those events; device reset and diagnostic unlock the drive and raise a unit attention; other commands leave both alone. |
| CdDrive.Drive.LoadBlock | fw/ctrl_832/cdrom.c:435-435 | The block under the cursor comes from the disc in the drive, which does not change while it is read. |
| CdDrive.Drive.MoveTray | fw/ctrl_832/cdrom.c:373-382 | Every tray movement raises a unit attention and empties the seek cache. |
| CdDrive.Drive.AcceptPacket | fw/ctrl_832/cdrom.c:516-533 | The byte limit keeps to the byte count asked for, clipped to a block and made even; a limit of 1 is refused. |
| CdDrive.Drive.Mount | fw/ctrl_832/cdrom.c:138-152 | A mount succeeds exactly when the unit matches, nothing is locked or pending and the image can be laid out; between commands the new disc comes in behind a unit attention, otherwise it waits; a failed one, or one that has to wait, leaves the disc in the drive, the transfer and the attention untouched. |
| CdDrive.Drive.Eject | fw/ctrl_832/cdrom.c:154-165 | An eject waits its turn like a mount, as an empty disc, and leaves the drive empty; until then disc, transfer and attention stay. |
| CdDrive.Drive.ValidateImage | fw/ctrl_832/cdrom.c:95-99 | A trial layout does not touch the disc in the drive. |
| CdDrive.Drive.Configure | fw/ctrl_832/cdrom.c:118-128 | One unit at a time; configuring empties the drive, and a refused call changes nothing. |
| CdDrive.Drive.Detach | fw/ctrl_832/cdrom.c:130-136 | Detaching the unit ends everything without data; another unit's call changes nothing. |
| CdTransfer.SendPhase | fw/ctrl_832/cdrom.c:450-461 | What was sent stays a prefix of the blocks requested, in even phases, as many per block as the limit calls for. |
| CdTransfer.TakeBlock | fw/ctrl_832/cdrom.c:445-448 | Taking in a block keeps that. |
| CdTransfer.FullBlock | fw/ctrl_832/cdrom.c:450-461 | A block is used up after exactly the block size divided by the limit, rounded up, phases. |
| CdTransfer.LimitGrants | fw/ctrl_832/cdrom.c:516-528 | The limit is all of the byte count asked for that is even, and 2048 for none or for more. |
| CdTransfer.RequestedCount | fw/ctrl_832/cdrom.c:348-349 | READ(10) keeps its count in bytes 7 and 8, READ(12) in bytes 6 to 9, most significant byte first. |
| CdTransfer.EventsTell | fw/ctrl_832/cdrom.c:450-461 | A data phase shows its length in the byte count registers and ends with an interrupt, which carries END only on the last; an error shows the sense key in the upper half of the error register. |
| CdTrace.StepOfRead | fw/ctrl_832/cdrom.c:399-534 | One step does one of three things to a READ under way: nothing, exactly one data phase, or its end, which is its last phase or a cut-off without data. |
| CdTrace.ReadUnderWay | fw/ctrl_832/cdrom.c:399-461 | While it is under way, what the guest received of a READ since it was accepted is a beginning of the user data of its blocks, in even phases within the limit, from the one disc it was accepted for, and without END. |
| CdTrace.ReadOver | fw/ctrl_832/cdrom.c:399-461 | When a READ is over, the guest has received exactly the user data of its blocks, in as many phases as the limit calls for, with END after the last and no other; or it was cut off, which does not happen while a working drive is asked for readable blocks. |
| CdTrace.StepOfAnswer | fw/ctrl_832/cdrom.c:399-534 | One step does one of three things to an answer under way: nothing, one full data phase of what is left, or its end, which is its last phase or a cut-off without data. |
| CdTrace.AnswerUnderWay | fw/ctrl_832/cdrom.c:399-461 | While it is under way, what the guest received of an answer is a beginning of its page, in full phases and without END. |
| CdTrace.AnswerOver | fw/ctrl_832/cdrom.c:399-461 | When an answer is over, the guest has received exactly its page, cut to what it allowed, with END after the last phase and no other; or the guest or the time ended the command. |
| CdLaws.DataOrigin | fw/ctrl_832/cdrom.c:399-534 | A step writes data only for a transfer under way when the guest has room, or as the page a command asks for. |
| CdLaws.TransferBegins | fw/ctrl_832/cdrom.c:424-429 | A transfer begins with a packet the drive takes: either an accepted READ, or one with an answer. |
| CdLaws.AnnouncedFirst | fw/ctrl_832/cdrom.c:61-83 | Between the step that brings a disc in and the next packet that tells of the disc in the drive, a unit attention is reported to the guest. |
| CdLaws.TellsAll | fw/ctrl_832/cdrom.c:290-362 | READs, the capacity and the table of contents all tell of the disc. |
| CdLaws.TellsOfKnown | fw/ctrl_832/cdrom.c:290-291 | A packet that tells of the disc finds one loaded, and no unit attention pending. |
| CdLaws.RunReads | fw/ctrl_832/cdrom.c:399-534 | The laws of READs hold for every accepted READ of every run. |
| CdLaws.RunOrigins | fw/ctrl_832/cdrom.c:399-534 | So do those of where data come from. |
| CdLaws.RunNewDiscs | fw/ctrl_832/cdrom.c:61-83 | The law of new discs holds for every packet of every run that tells of the disc. |
| CdLaws.RunAnswers | fw/ctrl_832/cdrom.c:399-534 | The laws of answers hold for every packet of every run that begins one. |
| CdLaws.WhoOrdered | fw/ctrl_832/cdrom.c:491-534 | A drive that waits for a packet does so because of a packet command whose byte count fixes its limit. |
| CdLaws.ReadFits | fw/ctrl_832/cdrom.c:450-461 | No data phase of a READ is longer than the byte count its packet command asked for, or than a block. |
| CdLaws.AnswerFits | fw/ctrl_832/cdrom.c:450-461 | Nor is one of an answer. |
| CdLaws.RunPhases | fw/ctrl_832/cdrom.c:399-534 | Both hold over every run. |
| CdLaws.StepOfSwap | fw/ctrl_832/cdrom.c:75-83 | A disc comes in at once, laid out by this very mount or eject, or because it waited. |
| CdLaws.WaitingDisc | fw/ctrl_832/cdrom.c:138-165 | The disc that waits is that of the last mount or eject the drive accepted, and no other was accepted since. |
| CdLaws.RunExchanges | fw/ctrl_832/cdrom.c:75-165 | In every run, every disc that comes in is the laid-out disc of the sheet mounted last, or none after an eject. |
| CdLaws.RunSense | fw/ctrl_832/cdrom.c:42-59 | In every run, the sense data are those of the last error reported to the guest, unless they were cleared or the command was abandoned. |
| CdRun.Perform | fw/ctrl_832/cdrom.c:61-534 | Every call of the drive is one step of the trace: it changes the state seen by the guest only as the steps allow. |
| CdRun.Serve | fw/ctrl_832/cdrom.c:399-534 | A poll, followed by the command the guest has sent if the drive is idle, is one step. |
| CdRun.CommandTurn | fw/ctrl_832/cdrom.c:491-534 | An idle drive takes a packet command exactly for its own unit with a usable limit, and a command sends no data but the page it asks for. |
| CdRun.Run | fw/ctrl_832/cdrom.c:61-534 | Every run of mounts, ejects, commands, polls, timeouts and cancellations is recorded state by state, from the state before to the state after; over that record every accepted READ, and every answer, delivers a beginning of its data, from the one disc it was accepted for, in phases no longer than the byte count its task file asked for, until it has delivered all of them or is cut off; no other data exist but the page a command asks for; every disc that comes in is the one mounted last; and a new disc is announced by a unit attention before the guest is told anything of it. |
| AtaGeometry.HardfileGeometry | fw/ctrl_832/hdd.c:934-1016 | For every size up to what 16 heads, 255 sectors and 65535 cylinders hold (65534 with a synthetic table), the shape holds the disk, the synthetic cylinder included, and one cylinder less would not; beyond that the search ends without one. |
| AtaGeometry.Approximate | fw/ctrl_832/hdd.c:985-1009 | Succeeds if and only if the total fits the largest shape; takes the first combination of heads and sectors, in order, with which the largest number of cylinders covers the total, and the least number of cylinders for it. |
| AtaGeometry.AcceptableSuits | fw/ctrl_832/hdd.c:991-1005 | The stepwise test of a shape accepts exactly those whose largest number of cylinders covers the total. |
| AtaGeometry.WholeExactly | fw/ctrl_832/hdd.c:953-964 | A size is a whole number of cylinders of 32 sectors to the track exactly if it is a multiple of one. |
| AtaGeometry.CeilLeast | fw/ctrl_832/hdd.c:991 | The rounded quotient is the least number of cylinders that covers the total. |
| AtaGeometry.LbaInShape | fw/ctrl_832/hdd.c:244-247 | Every address of the shape names a block of it, and is recovered from that block. |
| AtaGeometry.ChsOfLba | fw/ctrl_832/hdd.c:244-247 | Every block of the shape has an address. |
| AtaGeometry.LbaTells | fw/ctrl_832/hdd.c:454-461 | An address outside the cylinders names no block of the shape. |
| AtaGeometry.AdvanceChs | fw/ctrl_832/hdd.c:732-748 | The loop over the task file ends on the address of the last sector of the transfer. |
| AtaGeometry.FollowingLba | fw/ctrl_832/hdd.c:736-747 | One step of the loop is one block further. |
| Ata.Drive.CacheCapacity | fw/ctrl_832/hdd.c:405-444 | Accepts, for each of the four kinds of disk, exactly the geometries and places whose sectors are all there, and then every guest sector has a place. |
| Ata.Drive.Admit | fw/ctrl_832/hdd.c:447-468 | A command is refused only for an invalid multiple mode, LBA addressing, or a cylinder, head, sector or count outside the disk, each with its error code, and never for a run that ends with the last sector; one that is admitted names 1 to 256 sectors that are all on the disk. |
| Ata.Drive.AllowedExactly | fw/ctrl_832/hdd.c:447-468 | The tests refuse exactly what is not a run of 1 to 256 sectors on the disk, or needs a multiple mode that is not set, with the error code for each. |
| Ata.Drive.ReadSectors | fw/ctrl_832/hdd.c:513-704 | A read delivers consecutive guest sectors from the one its cylinder, head and sector name, announced in blocks of the multiple setting; on a working card with a patient guest it completes if and only if the command is one the disk serves, the last sector included; a broken one delivered a prefix. |
| Ata.Drive.ReadBlocks | fw/ctrl_832/hdd.c:538-694 | The transfer loop delivers block after block without gap. |
| Ata.Drive.ReadFileBlock | fw/ctrl_832/hdd.c:575-651 | A block that crosses from the synthetic table into the file stays aligned. |
| Ata.Drive.SpecialSector | fw/ctrl_832/hdd.c:581-600 | The made-up blocks, field by field, and block 0 of the boot disk with its boot flags put right. |
| Ata.Drive.ReadCardBlock | fw/ctrl_832/hdd.c:654-687 | Blocks of a whole card or a partition come from the card at the partition's offset. |
| Ata.Drive.WriteSectors | fw/ctrl_832/hdd.c:708-830 | An accepted write stores the guest's sectors one for one, drops those for the synthetic table, touches no other guest sector and no other card sector, ends on the address of the last sector, and leaves at most the sector after the stored ones torn; on a working card with a patient guest and an unlocked file it completes if and only if the command is one the disk serves; on a whole card or a partition the FAT cache then still equals the card if and only if the cached sector is outside what was written or torn, or was rewritten with its own contents. |
| Ata.Drive.WriteBlocks | fw/ctrl_832/hdd.c:765-823 | The transfer loop stores block after block in step with the guest. |
| Ata.Drive.WriteOne | fw/ctrl_832/hdd.c:784-813 | Each sector goes to its own place, or nowhere for the synthetic table. |
| Ata.Drive.Position | fw/ctrl_832/hdd.c:761-763 | The seek before a write stands on the first sector that will be stored. |
| Ata.Drive.StepOn | fw/ctrl_832/hdd.c:794-797 | The step between two sectors of a write never fails on a working card. |
| AtaDisk.ReadBack | fw/ctrl_832/hdd.c:573-600 | Reading after a write returns what was sent; made-up and other blocks are as before. |
| AtaDisk.ReadBackExact | fw/ctrl_832/hdd.c:590-596 | The exact condition for reading back unchanged: not a rigid disk block with other boot flags written to block 0 of the boot disk. |
| AtaDisk.BootFlagsSum | fw/ctrl_832/hdd.c:590-596 | The boot-flag rewrite keeps the sum of the block modulo 2^32. |
| AtaDisk.BootFlagsBytes | fw/ctrl_832/hdd.c:590-596 | Only a block that begins with RDSK changes, only in bytes 8 to 11 and 20 to 23, and the latter then say 0x12. |
| AtaDisk.WhereKept | fw/ctrl_832/hdd.c:575-687 | Block k is sector k plus the offset of the file or the card; before them lie the made-up blocks, and blanks. |
| AtaDisk.RdbChecksum | fw/ctrl_832/hdd.c:49-59 | Afterwards the block is the one whose summed longwords add up to 0 and whose other longwords are as before. |
| AtaDisk.Sealed | fw/ctrl_832/hdd.c:49-59 | The summed longwords of such a block add up to 0 modulo 2^32, and only the checksum differs. |
| RigidDisk.FakeRdb | fw/ctrl_832/hdd.c:64-149 | The made-up blocks are the rigid disk block at 0, the partition block at 1, and blanks. |
| RigidDisk.FrontSound | fw/ctrl_832/hdd.c:64-149 | Both blocks pass a guest's checks: name, size and sum are right, and the first leads to the second, with which the chain ends. |
| RigidDisk.DiskFields | fw/ctrl_832/hdd.c:75-114 | The rigid disk block, longword by longword. |
| RigidDisk.PartitionFields | fw/ctrl_832/hdd.c:116-149 | The partition block, longword by longword. |
| RigidDisk.FrontFields | fw/ctrl_832/hdd.c:64-149 | Both blocks hold those longwords most significant byte first, and begin with RDSK and PART. |
| RigidDisk.PartitionPlace | fw/ctrl_832/hdd.c:132-138 | Read back from the block, the partition begins behind the cylinder in front of the file and ends with the last cylinder of the disk. |
| RigidDisk.PartitionHolds | fw/ctrl_832/hdd.c:934-1016 | The partition holds the whole file, and nothing but it if and only if the file is made of whole cylinders; otherwise it ends less than a cylinder behind the file. |
| RigidDisk.PartitionShowsFile | fw/ctrl_832/hdd.c:1127-1128 | Block k of the partition is sector k of the file. |
| AtaDisk.BlocksLaw | fw/ctrl_832/hdd.c:538-542 | All blocks but the last have the multiple size, none is empty or larger, and they add up to the count. |
| AtaDisk.StoreFrame | fw/ctrl_832/hdd.c:784-813 | Storing one guest sector changes no other guest sector. |
| DirOrder.StrnICmp | fw/ctrl_832/fat.c:612-626 | The difference of the first characters that differ, letter case aside, or 0. |
| DirOrder.CompareDirEntries | fw/ctrl_832/fat.c:628-673 | The comparison is the lexicographic order of a key: directories first, eleven characters, short before long names, the rest of a long name. |
| DirOrder.BelowTotal | fw/ctrl_832/fat.c:628-673 | That order is total and strict. |
| DirOrder.BelowTransitive | fw/ctrl_832/fat.c:628-673 | And transitive. |
| DirOrder.DirectoriesFirst | fw/ctrl_832/fat.c:634-638 | A directory stands before everything else. |
| DirOrder.NamesDiffer | fw/ctrl_832/fat.c:640-657 | Among the first 11 characters, or 260 of two long names, the first that differ decide, letter case aside. |
| DirOrder.NamesAgree | fw/ctrl_832/fat.c:659-671 | If they agree, a short name stands before a long one. |
| DirOrder.DifferentNames | fw/ctrl_832/fat.c:628-673 | Well-formed entries are pairwise different if their names differ among the first eleven characters. |
| DirOrder.SmallLetters | fw/ctrl_832/fat.c:612-626 | Only the 26 capital letters are folded. |
| DirOrder.NeverShown | fw/ctrl_832/fat.c:798-850 | Empty and deleted slots, hidden entries, volume labels and the directory itself are never listed. |
| DirOrder.ShownByExtension | fw/ctrl_832/fat.c:850-854 | Everything else is listed if it is a directory the filter admits or has an extension of the filter. |
| DirOrder.ListingExists | fw/ctrl_832/fat.c:856-897 | Every directory of qualifying entries that are pairwise different has a sorted listing. |
| DirOrder.ListingUnique | fw/ctrl_832/fat.c:856-897 | And only one. |
| SortTable.Take | fw/ctrl_832/fat.c:858-897 | One more entry into a window of the lowest eight leaves the lowest eight, in order, in the slots the table names. |
| SortTable.Bubble | fw/ctrl_832/fat.c:883-896 | One pass of bubble sort puts the last row in its place and moves no entry. |
| SortTable.LowestNext | fw/ctrl_832/fat.c:858-881 | The window is the lowest eight of what has been met so far. |
| SortTable.LowestOfSpan | fw/ctrl_832/fat.c:857-897 | Once everything wanted has been met, the window is its beginning. |
| DirBrowser.Browser.ScanInit | fw/ctrl_832/fat.c:706-712 | Shows the beginning of the sorted listing. |
| DirBrowser.Browser.ScanInitFirst | fw/ctrl_832/fat.c:898-916 | Shows the last entry on disk that starts at the given cluster as the only row, and changes nothing when there is none. |
| DirBrowser.Browser.ScanInitNext | fw/ctrl_832/fat.c:917-965 | Fills the rows behind it with its successors. |
| DirBrowser.Browser.ScanNext | fw/ctrl_832/fat.c:966-1007 | Moves the selection by one row if there is a row below; on the last row the window moves on by one and drops its first row exactly if an entry lies behind it; otherwise nothing moves. |
| DirBrowser.Browser.ScanPrev | fw/ctrl_832/fat.c:1008-1052 | Moves the selection up by one row; on the first row the window moves back by one, growing to at most eight rows, exactly if an entry lies before it. |
| DirBrowser.Browser.ScanNextPage | fw/ctrl_832/fat.c:1053-1102 | Selects the last row if it was not selected; otherwise, with the same row selected, a full window moves on by up to eight rows, as far as there are entries. |
| DirBrowser.Browser.ScanPrevPage | fw/ctrl_832/fat.c:1103-1150 | Selects the first row if it was not selected; otherwise the window moves back by eight rows, or to the beginning. |
| DirBrowser.Browser.PageDownRows | fw/ctrl_832/fat.c:1234-1249 | The swaps and copies that install a page below. |
| DirBrowser.Browser.PageUpRows | fw/ctrl_832/fat.c:1250-1268 | The swaps and copies that install a page above, from entries in reverse order. |
| DirBrowser.Browser.ScanDirectory | fw/ctrl_832/fat.c:675-1302 | The modes SCAN_INIT, SCAN_NEXT, SCAN_PREV and the two page modes keep the rows a slice of the sorted listing and the table a permutation, and move as intended. |
| DirBrowser.Browser.ReturnTo | fw/ctrl_832/menu.c:1077-1085 | Returning to a directory shows the entry it was left through and its successors, or the beginning when that entry is not shown. |
| DirBrowser.Browser.GoBack | fw/ctrl_832/menu.c:987-998 | Going back by the key shows the entry the directory was left through and its successors if and only if that is found; otherwise the rows stay at the beginning of the directory left. |
| DirBrowser.Stale | fw/ctrl_832/menu.c:987-998 | The rows are those of another directory exactly after going back without finding the entry. |
| DirBrowser.Browser.Browse | fw/ctrl_832/fat.c:675-1302 | Over every run of scans through any directories, entering them and returning or going back to them, the rows are the slice of the sorted listing that the steps lead to, of the directory the menu is in or, after going back in vain, of the one it left. |
| DirBrowser.LandsOn | fw/ctrl_832/fat.c:898-916 | The row found is the position in the listing of the last slot on disk that starts at the cluster. |
| DirBrowser.LastOfMatches | fw/ctrl_832/fat.c:898-916 | There is a last matching slot exactly if there is one at all, and no match comes after it. |
| DirBrowser.OneStep | fw/ctrl_832/fat.c:718-735 | The selection walks the listing one by one and stops at its ends. |
| DirBrowser.PageDown | fw/ctrl_832/fat.c:736-745 | Paging down always makes progress and never skips an entry that was not shown. |
| DirBrowser.PageUp | fw/ctrl_832/fat.c:746-753 | Paging up always makes progress and never skips an entry. |
| DirBrowser.NextPrev | fw/ctrl_832/fat.c:718-735 | A step down and a step up end on the same entry. |
| DirBrowser.SessionWithin | fw/ctrl_832/fat.c:675-1302 | Whatever the steps, the place they lead to is one of the listing the rows show. |
| Allocator.Heap.MallocAdd | fw/testbed/malloc.c:154-186 | The new memory, in the largest multiple of 512 bytes it has room for, joins the pool as free memory; no block in use is touched. |
| Allocator.ChunksTell | fw/testbed/malloc.c:159-160 | Memory is added in the largest multiple of 512 bytes there is. |
| Allocator.ClearExactly | fw/testbed/malloc.c:154-186 | Memory may be added exactly if none of its bytes is in a block; it may adjoin one. |
| Allocator.Heap.Malloc | fw/testbed/malloc.c:189-216 | First fit: returns NULL if and only if no free block has the least multiple of 16 bytes that holds the request and its header; otherwise hands out a block of its own with room for the request and less than 64 bytes more than it asked for; every other block in use stays. |
| Allocator.RoundedUp | fw/testbed/malloc.c:200-201 | What a request needs is the least multiple of 16 that holds it and its header. |
| Allocator.RoomNeeds | fw/testbed/malloc.c:202-209 | A free block has room for a request exactly if it has that many bytes. |
| Allocator.Heap.Free | fw/testbed/malloc.c:218-229 | Gives back exactly the block handed out at the pointer. |
| Allocator.Heap.AvailMem | fw/testbed/malloc.c:263-275 | Equals the bytes in free blocks; with the bytes in use it makes up all memory added. |
| Allocator.Heap.MallocFromBlock | fw/testbed/malloc.c:55-91 | The block lists afterwards are the carved arena. |
| Allocator.Heap.FreeBlock | fw/testbed/malloc.c:93-151 | Coalesces with the free neighbours on both sides. |
| Allocator.Heap.JoinBack | fw/testbed/malloc.c:112-121 | Into the block before. |
| Allocator.Heap.Mark | fw/testbed/malloc.c:122-136 | Onto the front of the free list. |
| Allocator.Heap.SwallowNext | fw/testbed/malloc.c:140-147 | With the block after. |
| Allocator.Heap.Search | fw/testbed/malloc.c:202-209 | The first entry of the free list that is large enough. |
| Allocator.Heap.Predecessor | fw/testbed/malloc.c:167-177 | The backward search ends at the place that keeps the list in address order. |
| Allocator.Heap.RemoveFromMainChain | fw/testbed/malloc.c:31-38 | Unlinking removes that element and no other. |
| Allocator.Heap.RemoveFromFreeChain | fw/testbed/malloc.c:40-47 | Unlinking removes that element and no other. |
| HeapLaws.CarveLaw | fw/testbed/malloc.c:55-91 | Carving keeps blocks in order, apart and coalesced, the free list exactly the free blocks, and every byte in a block; it takes exactly the block handed out. |
| HeapLaws.ReleaseLaw | fw/testbed/malloc.c:93-151 | Giving back keeps the same and frees exactly that block. |
| HeapLaws.AdmitLaw | fw/testbed/malloc.c:154-186 | So does adding memory, and only that memory. |
| HeapLaws.Apart | fw/testbed/malloc.c:17-19 | Blocks of one arena do not overlap, so payloads and headers are disjoint. |
| HeapLaws.FreeTotal | fw/testbed/malloc.c:263-275 | Adding up along the free list gives the bytes of all free blocks. |
| HeapLaws.LayoutDetermined | fw/testbed/malloc.c:112-147 | The block list is fixed by the memory and the blocks in use: whatever was allocated and given back in between leaves no trace in it. |
| HeapModel.RingInsert | fw/testbed/malloc.c:177-182 | The four pointer writes insert one element into a doubly linked list. |
| HeapModel.RingRemove | fw/testbed/malloc.c:31-47 | The two pointer writes remove one element. |
| HeapModel.RingReplace | fw/testbed/malloc.c:80-84 | The four pointer writes replace one element. |
| FloppyCodec.DataRoundTrip | fw/ctrl_832/fdd.c:146-156 | Decoding an encoded data field accepts it and returns the data. |
| FloppyCodec.HeaderRoundTrip | fw/ctrl_832/fdd.c:73-114 | Decoding an encoded header accepts it and returns track and sector. |
| FloppyCodec.DataFlip | fw/ctrl_832/fdd.c:522-586 | Any change of data bits in one byte of a good data field is rejected; changes of clock bits do not matter. |
| FloppyCodec.HeaderFlip | fw/ctrl_832/fdd.c:396-480 | The same for headers. |
| FloppyCodec.HalvesSum | fw/ctrl_832/fdd.c:122-134 | The decoder's sum over both halves is the encoder's sum over the bytes. |
| FloppyCodec.TrackBytes | fw/ctrl_832/fdd.c:44-50 | Eleven sectors and the gap are 12668 bytes. |
| FloppyCodec.SectorLayout | fw/ctrl_832/fdd.c:54-157 | The 1088 bytes of an encoded sector, one by one: clock bytes, the synchronization word twice, format, track, sector and distance to the gap in halves, label, checksums, and the halves of the data. |
| FloppyCodec.TrackLayout | fw/ctrl_832/fdd.c:44-50 | Sector n of a track begins 1088 times n bytes into it, and 700 clock bytes follow the last. |
| FloppyCodec.HeaderNames | fw/ctrl_832/fdd.c:396-480 | A header that is accepted names one of 160 tracks and one of 11 sectors in the data bits of its first eight bytes. |
| Floppy.Port.SendSector | fw/ctrl_832/fdd.c:54-157 | Sends exactly the encoded sector. |
| Floppy.Port.ReadTrack | fw/ctrl_832/fdd.c:167-318 | For as long as the guest asks for the track, sends the sectors that turn past the head, from the first or from where the last read of the same track stopped, each with the synchronization word asked for, the gap behind the last sector, and remembers the place. |
| Floppy.UsualWords | fw/ctrl_832/fdd.c:255-257 | Exactly three synchronization words are replaced, by 0x4489. |
| FloppyCodec.Resumed | fw/ctrl_832/fdd.c:205-212 | A read that goes on where the one before stopped sends what one read would have sent. |
| FloppyCodec.OneTurn | fw/ctrl_832/fdd.c:270-311 | Eleven sectors from the beginning with one synchronization word are the whole track. |
| FloppyCodec.TurnLength | fw/ctrl_832/fdd.c:44-50 | A turn is as long as a track wherever it begins. |
| Floppy.Port.SendGap | fw/ctrl_832/fdd.c:159-164 | Sends the gap. |
| Floppy.Port.FindSync | fw/ctrl_832/fdd.c:322-363 | Stops behind the first synchronization word; if the guest goes on writing it finds every word that lies within as many answers as it waits for. |
| Floppy.Port.GetHeader | fw/ctrl_832/fdd.c:365-496 | Accepts exactly the good headers behind a second synchronization word and returns their track and sector. |
| Floppy.Port.GetData | fw/ctrl_832/fdd.c:498-601 | Accepts exactly the good data fields and returns their data. |
| Floppy.Port.Decode | fw/ctrl_832/fdd.c:624-645 | An encoded sector goes through the three steps and comes back as it was. |
| KeyQueue.Queue.Service | fw/ctrl_832/keyboard.c:26-42 | Retires the event in flight when it is acknowledged or expired, and sends the next one, once. |
| KeyQueue.Queue.Send | fw/ctrl_832/keyboard.c:47-76 | Refuses a key event exactly when 127 are pending and the one in flight is stalled; notes every arrival; other events bypass the queue. |
| KeyQueue.Queue.Idle | fw/ctrl_832/keyboard.c:81-85 | True exactly when nothing is pending and no key is held. |
| KeyQueue.Queue.KeyDown | fw/ctrl_832/keyboard.c:88-90 | Whether the key is held. |
| KeyQueue.CellsMeet | fw/ctrl_832/keyboard.c:65-66 | The ring is found full exactly at 127 events and empty exactly at none. |
| Keyboard.MarkedHolds | fw/ctrl_832/keyboard.c:56-61 | The bitmap follows the set of held keys. |
| Keyboard.NoneHeld | fw/ctrl_832/keyboard.c:83-84 | The four words are all 0 exactly when no key is held. |
| Keyboard.EventParts | fw/ctrl_832/keyboard.c:51-61 | The top two bits of an event make it a key event, the low seven name the key, and bit 7 is a release. |
| KeyQueue.Osd.Poll | fw/ctrl_832/osd.c:823-841 | A waiting display takes the keyboard, with command 3, exactly in the step that finds every event done with and no key held. |
| KeyQueue.Osd.Show | fw/ctrl_832/osd.c:844-859 | Showing with capture keeps the keyboard, takes it if the queue is found idle, or waits; without, it shows at once and releases the keyboard. |
| KeyQueue.Osd.Hide | fw/ctrl_832/osd.c:863-873 | Hides and forgets a waiting capture. |
| KeyRun.Run | fw/ctrl_832/keyboard.c:26-107 | Every interleaving of arrivals, service and display calls leaves ring, bitmap and display in the state of a machine without them, answers its callers as it does, and has written to the guest what it says. |
| KeyRun.Perform | fw/ctrl_832/keyboard.c:26-107 | So does each single call. |
| KeyRun.NothingLost | fw/ctrl_832/keyboard.c:47-76 | The events taken in are those that arrived and did not find 127 pending with a stalled one in flight, in order; all others are counted; what was written is a beginning of them, all but at most 126, and never taken back. |
| KeyRun.HeldKeys | fw/ctrl_832/keyboard.c:55-61 | A key counts as held if and only if its last event pressed it, refused events included. |
| KeyRun.CaptureLaw | fw/ctrl_832/osd.c:819-873 | The display has the keyboard if and only if it was asked to take it, was not hidden or shown without it since, and one of its looks since then found every event done with and no key held; it waits if and only if none did. |
| KeyRun.CommandLaw | fw/ctrl_832/osd.c:819-873 | Over every run the last command sent to the display, 0, 1 or 3, says whether it is shown and whether it has the keyboard. |
| KeyRun.Drain | fw/ctrl_832/keyboard.c:26-42 | Service retires one event for every acknowledgement or timeout until none is left. |
| KeyRun.CaptureComes | fw/ctrl_832/osd.c:823-841 | With no key held, a waiting capture comes about at the first poll after as many of those as there are events. |
| AuxHid.Decoder.Feed | fw/ctrl_832/aux_hid.c:152-222 | However the stream is cut into chunks, the reports handed on are those of the whole stream, and the seven-byte buffer suffices. |
| AuxHid.Decoder.FeedWord | fw/ctrl_832/aux_hid.c:158-221 | One word keeps the decoder in step with the stream. |
| AuxHid.Decoder.FeedByte | fw/ctrl_832/aux_hid.c:171-220 | A byte completes a report, extends one, or spoils the transaction. |
| AuxHid.OneMore | fw/ctrl_832/aux_hid.c:182-205 | What one byte more means for a transaction. |
| AuxHid.ReportFormats | fw/ctrl_832/aux_hid.c:171-205 | Reports begin with 1 and are of type 1, 2 or 3, with 4, 5 or 7 bytes. |
| AuxHid.DecodeSent | fw/ctrl_832/aux_hid.c:149-151 | For every list of start-marked transactions, cut off or ending in a bad header or not, exactly the complete reports come out, in order. |

## Left out

- Hardware access: SPI framing, timers, MMIO, card initialisation, debug output, error screens and drive sounds.
  Failures, cancellation, expiry and acknowledgement are nondeterministic.
- Error reports, in which the checked and quiet variants of the file functions differ. The checked forms of
  FileReadExImpl and FileWriteImpl also refuse ranges: both forms of the read are modelled, and the checked form of
  the write.
- Masks and shifts by the cluster size are written as quotients and remainders; the cluster size is a power of two up
  to 128.
- Sector buffers are values, since they are always filled whole; aliasing between caller buffers is not modelled.
- FatFile.Volume.NextSector: where the source adds one to a 32-bit sector number the model excludes the last 32-bit
  value, which no file reaches.
- RandomAccess.RAFile.Read: counts of 2^31 - 512 bytes and more, where the source's signed sum overflows, are
  excluded; the error flag for a read that stops inside the last, partial sector is as the code sets it.
- RAReadLine, opening files by path, UpdateEntry, and the partition search of FindDrive.
- FatCreate.FileCreate: the sectors of the directory are given as a list, in place of the walk along its chain; dates
  and size of the new entry are parameters; and the result for a full FAT is told apart from success although the
  source returns 1 for both.
- The CUE text parser is a parameter with the guarantees it gives to the layout and the numbers of the tracks; so is
  the IDENTIFY PACKET DEVICE page.
- RandomAccess.RAFile.Seek: starts from a handle that missed no link; `RandomAccess.RAFile.Read` starts from any.
- That media never change while locked is not claimed: a change already pending still happens.
- Ata.Drive.ReadSectors: the cylinder, head and sector shown in the task file during a multi-block read are not
  modelled; each block advances them by one fewer than its size.
- RigidDisk.FakeRdb: longwords are laid out most significant byte first, as the guest reads them.
- AtaGeometry.HardfileGeometry: sizes below one sector, which every later step refuses, are excluded.
- Long file name assembly and checksums, the letter search and read failures of ScanDirectory. Directories are given
  as their decoded entries in disk order.
- DirBrowser.Browser.ScanDirectory: covers five modes; SCAN_INIT_FIRST and SCAN_INIT_NEXT are
  `DirBrowser.Browser.ReturnTo`, and the letter search, which compares short names where the rows are sorted by long
  ones, is not modelled.
- DirBrowser.Browser.ScanInitNext: requires what a successful SCAN_INIT_FIRST leaves, as in every call of the menu;
  rows are stale after a change of directory until the next SCAN_INIT or successful SCAN_INIT_FIRST.
- DirBrowser.Browser.Browse: scrolling rows that still show the directory left, after going back in vain, is not
  modelled.
- The file filter stays the same during a run of the browser.
- The modes of ScanDirectory are separate methods over the same fields, and the insertion code it repeats four times
  is one.
- calloc, malloc_dump, and sizes whose sum wraps 32 bits. The head's address stands for an address below every block,
  and payload bytes are not part of the heap's state.
- Allocator.Heap.MallocAdd: memory of less than one chunk, which would leave a block that cannot hold its header, is
  excluded, as is memory that overlaps what was added before.
- Floppy.Port.FindSync: the source asks again for as long as the guest goes on writing; here `patience` bounds how
  often, in `Floppy.Port.GetHeader` and `Floppy.Port.GetData` too.
- The numbers by which the floppy decoder tells its errors apart; a field is accepted or not.
- Floppy.Port.ReadTrack: the requests that end a read are given as a list, the sectors of the track as values, and the
  dummy data sent without a disk or beyond its last track are left out.
- The handlers that turn input reports into key, mouse and joystick events; `AuxHid` stops at the report.
- KeyQueue.Queue.Send: the overflow counter is unbounded.
- Menus, on-screen drawing, configuration files, Workbench tools and the older copies of these files under
  `fw/testbed`.
