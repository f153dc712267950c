# BT/OS: a verified model of its stateful core

BT/OS is a 32-bit kernel with loadable drivers. This project models, in Dafny, the parts of it whose correctness rests on state that many steps share, and proves what those parts promise.

- **FAT16/32 library** (`src/modules/fat`). `FatTable`, `FatBuffers`, `FatChains` and `FatVolume` take the file allocation table from bytes in sector buffers to a plain table and to a set of cluster chains. `FileView`, `FileDisk` and `FatFile` take an open file from a cursor, a sector buffer and a remembered place in the chain to a plain byte sequence. `LongNames`, `DirEntries`, `DirScan` and `FatDirectory` cover directories, and `FatFormat` the formatter and the mount code that must read its output. The on-disk formats are those of the Microsoft FAT32 File System Specification 1.03, sections "FAT Data Structure", "FAT Type Determination", "FAT Directory Structure" and "FAT Long Directory Entries". `Bytes` holds the little-endian words.
- **Kernel heap** (`src/kernel/liballoc.c`). `HeapShape` is the heap without its links, `HeapLinks` how headers linked through memory represent it, `HeapResize` what realloc adds, and `Liballoc` the allocator itself.
- **memcpy and memmove** in `MemCopy`.
- **Scheduler pass and locks**. `SchedulePass` is one pass as a function, `Starvation` the argument over whole runs of passes, `Locks` the lock protocol as interleaved steps, and `Scheduler` the loops over the thread table, the switch from one thread to the next and the hand-over of the scheduler lock that goes with it.
- **Lazy file mapping** in `Mmap`.
- **Message passing** in `Messaging`.
- **Clock conversion and resynchronisation** in `Clock`.

Addresses and disk sectors are numbers, memory and disk are maps or sequences, and hardware always succeeds. Integer widths are written out wherever the source can wrap: 32-bit cycle and priority counters, 64-bit milliseconds, 16- and 28-bit FAT links, 32-bit sector counts in the mount code and in seeks.

Where the proofs found that the code does less than it seems to, the code was kept and the exact condition is a theorem:

- A clock-chip reading on the last day of a month comes back from the conversions as day 0 of the next month (`Clock.RoundTrip`), and after a resynchronisation the clock agrees with the chip exactly when the chip is not behind the boot time (`Clock.Rtc.ResyncClock`).
- `realloc` frees the old block and returns a null pointer exactly when no gap of the heap takes the new one and the page source refuses (`Liballoc.Heap.Realloc`).
- A directed yield reaches the process that it names exactly if no runnable thread of the process to go back to comes behind in the table; without such a process, a thread of process 0 takes its place (`SchedulePass.DirectedChoice`). When both of the next two threads of the schedule have stopped, and only then, a thread is resumed that must not run (`Scheduler.Table.Schedule`).
- A second of clock interrupts counts as 999 milliseconds (`Clock.Rtc.SecondOfInterrupts`).
- A reply that is refused leaves its copied content allocated (`Messaging.Messages.SendReply`).
- `fl_fseek` forgets an unflushed buffer; the bytes survive exactly if the disk held them already (`FatFile.File.Seek`). A negative offset from the start of a file goes to its end (`FatFile.SeekTargetSmall`).
- A long name returns unchanged exactly if it holds no byte 0xFF (`LongNames.RoundTrip`).
- A FAT16 volume mounts as what was formatted exactly from 8244 to 4194151 sectors; larger ones, and those below 42 sectors, are taken for FAT32 (`FatFormat.MountsAsFat16`).
- The FAT always has more entries than the volume has clusters (`FatFormat.FatLargeEnough`). The search for a free cluster ends inside the volume exactly if one of its clusters is free (`FatVolume.BlankInside`); on a full volume it ends at the first entry behind, whose cluster is not wholly on the disk (`FatFormat.FullVolume`). A table on which that cluster was taken is a set of chains for no set of files (`FatVolume.Volume.StartChain`).
- A file without a long name is found under its name exactly if its extension is empty or has all three bytes, because the padding of a shorter one is compared too (`DirEntries.ShortNameFound`).
- `fl_fwrite` always reports that it wrote everything. If no FAT entry outside the volume is free, the bytes are on the disk after a flush exactly if the volume had room for them (`FatFile.File.WriteThenFlush`); otherwise the file keeps its old bytes and a part of the new ones (`FatFile.File.Write`).

## Model

| member | source | states |
|---|---|---|
| FatTable.EntryRewritten | src/modules/fat/fat_table.c:366-380 | Writing one 16- or 32-bit entry of a FAT sector changes that entry, to the low 16 or 28 bits of the value, and no other |
| FatTable.SectorWritten | src/modules/fat/fat_table.c:348-380 | Rewriting an entry in its sector is the update of one element of the plain table |
| FatBuffers.WrittenBack | src/modules/fat/fat_table.c:82-111 | Writing a dirty buffer back stays inside the FAT, and buffers and disk still hold the same table together |
| FatBuffers.Rotated | src/modules/fat/fat_table.c:115-158 | Moving the oldest buffer to the front of the list loses no dirty sector |
| FatBuffers.Loaded | src/modules/fat/fat_table.c:160-173 | Giving a clean buffer a sector that no buffer holds keeps all addresses distinct and buffers equal to what readers must see |
| FatBuffers.Touched | src/modules/fat/fat_table.c:363-380 | A store into a buffered FAT sector, marked dirty, changes the table in that sector only |
| FatBuffers.InfoWritten | src/modules/fat/fat_table.c:259-282 | The FSInfo update writes through and gives its buffer up without touching the FAT |
| FatBuffers.CleanDisk | src/modules/fat/fat_table.c:178-194 | With no dirty buffer the first FAT on disk is the table |
| FatVolume.Volume.constructor | src/modules/fat/fat_table.c:59-77 | A freshly initialised buffer list holds exactly the FAT on disk |
| FatVolume.Volume.WriteBack | src/modules/fat/fat_table.c:82-111 | Exactly one sector of the disk changes, inside the FAT, to what the buffer holds, and the table stays as it was |
| FatVolume.Volume.ReadSector | src/modules/fat/fat_table.c:115-174 | Returns a buffer with the wanted sector, with no two buffers on one sector and no table entry lost |
| FatVolume.Volume.Purge | src/modules/fat/fat_table.c:178-194 | Afterwards the disk's first FAT equals the table |
| FatVolume.Volume.FindNext | src/modules/fat/fat_table.c:204-255 | Returns the link of the plain table, with every end mark as 0xFFFFFFFF and cluster 0 read as 2 |
| FatVolume.Volume.SetNextFree | src/modules/fat/fat_table.c:259-282 | On FAT32 the hint goes to bytes 492 to 495 of the FSInfo sector and no other byte outside the FAT changes; on FAT16 nothing does; the table stays |
| FatVolume.FirstBlank | src/modules/fat/fat_table.c:287-340 | The least free entry from a start, or none |
| FatVolume.Volume.FindBlank | src/modules/fat/fat_table.c:287-340 | Finds the least free entry from the start, and fails only if there is none in the whole FAT |
| FatVolume.BlankInside | src/modules/fat/fat_table.c:287-340 | The search ends inside the volume exactly if a cluster of the volume is free |
| FatVolume.Volume.SetCluster | src/modules/fat/fat_table.c:348-382 | The table changes in one entry, to the stored width of the value |
| FatChains.FreedChain | src/modules/fat/fat_table.c:388-406 | Following a proper chain and clearing each link clears exactly the chain, whatever the other entries hold |
| FatChains.InRangeInside | src/modules/fat/fat_table.c:388-406 | On a table whose links stay inside it, freeing from any cluster never leaves it, cyclic and cross-linked chains included |
| FatChains.UsedCleared | src/modules/fat/fat_table.c:394-403 | Each step of freeing removes one used entry, the measure by which it ends |
| FatVolume.Volume.FreeChain | src/modules/fat/fat_table.c:388-406 | Ends on every table on which the walk stays inside, cyclic or cross-linked ones too, and computes the same table as following the links |
| FatVolume.Volume.AddToChain | src/modules/fat/fat_table.c:413-439 | Links the new cluster behind the end mark, or changes nothing if the walk meets a free entry |
| FatChains.ExtendedStep | src/modules/fat/fat_write.c:55-75 | Taking the least free cluster extends the list of appended clusters by one, all of them the first free ones in order |
| FatChains.ExtendedChain | src/modules/fat/fat_write.c:44-75 | The chain followed by the appended clusters is again a chain without repetition |
| FatChains.OtherChain | src/modules/fat/fat_write.c:44-75 | A chain that did not end in the extended one's tail is untouched and disjoint from the new clusters |
| FatChains.ExtendedWf | src/modules/fat/fat_write.c:44-75 | Extension keeps the table a set of disjoint acyclic chains with no lost cluster, and only one chain grows |
| FatChains.StartedWf | src/modules/fat/fat_write.c:99-112 | A new one-cluster chain keeps the table a set of disjoint chains |
| FatChains.OutsideNotWf | src/modules/fat/fat_write.c:99-112 | Once an entry beyond the volume's clusters is taken, no set of files accounts for the table |
| FatChains.FreedWf | src/modules/fat/fat_table.c:388-406 | Clearing one chain keeps the others and loses no cluster |
| FatChains.EnoughBlanks | src/modules/fat/fat_write.c:55-58 | Clusters taken in order are all inside the volume exactly if it has that many free ones |
| FatChains.NextBlankInside | src/modules/fat/fat_write.c:55-58 | The next cluster taken is inside the volume exactly while it has free ones left |
| FatChains.ExtendedBlanks | src/modules/fat/fat_write.c:44-75 | The free clusters lose exactly the appended ones |
| FatChains.ClearedBlanks | src/modules/fat/fat_table.c:388-406 | The free clusters gain exactly those of the freed chain |
| FatVolume.Volume.AddFreeSpace | src/modules/fat/fat_write.c:44-75 | Appends the first n free clusters, or all there are, leaves every other entry alone and reports the first new one; with entry 0 in use, all are inside the volume exactly if it has n free ones; a next-free hint of FAT32 is withdrawn, in memory and in its four bytes of the FSInfo sector |
| FatVolume.Volume.AllocateFirst | src/modules/fat/fat_write.c:81-112 | A new file of one cluster gets the least free one, or nothing changes in the table; a next-free hint of FAT32 is withdrawn as above |
| FatVolume.Volume.StartChain | src/modules/fat/fat_write.c:81-112 | On a set of chains, allocation changes one entry; it adds a chain of the volume exactly if the volume has a free cluster, which it then has one fewer of |
| FatVolume.Volume.ExtendChain | src/modules/fat/fat_write.c:44-75 | On a set of chains, extension stays inside the volume exactly if enough clusters are free; then that chain grows, no other entry changes, and free and used add up |
| FatVolume.Volume.ReleaseChain | src/modules/fat/fat_table.c:388-406 | On a set of chains, freeing clears exactly one of them and returns its clusters |
| FileDisk.PlaceInjective | src/modules/fat/fat_access.c:196-202 | Different sectors of a file lie at different disk addresses |
| FileDisk.DiskWritten | src/modules/fat/fat_filelib.c:887-894 | Writing a run of sectors inside one cluster replaces exactly those sectors of the file |
| FileDisk.DiskGrown | src/modules/fat/fat_filelib.c:873-881 | A longer chain means the old sectors followed by those of the new clusters |
| FileDisk.LbaIsPlace | src/modules/fat/fat_access.c:196-202 | The address computed for a cluster and a sector in it is the place of that sector of the file |
| FileDisk.OtherFileKept | src/modules/fat/fat_filelib.c:812-894 | If every used cluster that is not the file's keeps its entry and its sectors, another file's chain is still one, disjoint from the file's, with the same sectors |
| FatFile.File.constructor | src/modules/fat/fat_filelib.c:325-393 | An opened file shows the bytes of its chain, with nothing buffered and no remembered place |
| FatFile.File.Walk | src/modules/fat/fat_filelib.c:567-603 | From the remembered place or from the start, the same cluster is reached as by walking the chain |
| FatFile.File.Locate | src/modules/fat/fat_filelib.c:549-603 | The cluster of a sector, and a run that ends at the request's or the cluster's end |
| FatFile.File.ReadSectors | src/modules/fat/fat_filelib.c:549-623 | Returns the file's sectors, none behind the chain, and leaves the remembered place valid |
| FatFile.File.Grow | src/modules/fat/fat_filelib.c:873-881 | The chain grows by the clusters asked for exactly if the volume has them, and else by all it has; the file keeps its sectors |
| FatFile.File.WriteSectors | src/modules/fat/fat_filelib.c:812-894 | Replaces exactly the sectors of the run, extending the chain when the run begins behind it; writes nothing exactly if the volume has too few clusters for that; leaves the remembered place valid |
| FileView.FlushedBy | src/modules/fat/fat_filelib.c:908-918 | Writing the buffer back does not change what the file shows, even if the file grew for it |
| FileView.StoredInCache | src/modules/fat/fat_filelib.c:1328-1375 | Bytes stored into a buffer that held the sector, or zeros behind the file, are a write to the byte sequence |
| FileView.DirectlyWritten | src/modules/fat/fat_filelib.c:1295-1327 | Whole sectors written past an empty buffer are a write to the byte sequence |
| FileView.DirectlyRead | src/modules/fat/fat_filelib.c:1057-1073 | Whole sectors read past the buffer are the file's bytes, because unflushed data lies before them |
| FileView.ForgottenShows | src/modules/fat/fat_filelib.c:1135-1137 | Forgetting a dirty buffer keeps the file's bytes exactly if the disk already held them |
| FatFile.File.FlushBuffer | src/modules/fat/fat_filelib.c:908-918 | The buffer is clean afterwards and the file shows the same bytes; on a full volume, data behind the chain stays in it |
| FatFile.File.Flush | src/modules/fat/fat_filelib.c:900-924 | Content and cursor stay as they were and the disk alone shows the content; on a full volume, data behind the chain stays unwritten |
| FatFile.File.ReadDirect | src/modules/fat/fat_filelib.c:1057-1073 | Returns the bytes at the cursor and moves past them |
| FatFile.File.ReadBuffered | src/modules/fat/fat_filelib.c:1074-1111 | Returns the bytes at the cursor, up to the end of their sector, and moves past them |
| FatFile.File.Read | src/modules/fat/fat_filelib.c:1017-1115 | -1 without permission or at the end of the file, 0 for no bytes, and otherwise the bytes of the sequence at the cursor |
| FatFile.File.WriteDirect | src/modules/fat/fat_filelib.c:1295-1327 | The file then shows its bytes with the whole sectors written at the cursor, or none are written and there is no room for all of them |
| FatFile.File.Prepare | src/modules/fat/fat_filelib.c:1337-1358 | The buffer holds the sector as readers see it, or zeros where the file has none yet |
| FatFile.File.WriteBuffered | src/modules/fat/fat_filelib.c:1328-1375 | The file then shows its bytes with the part of a sector written at the cursor, or the part waits in the buffer and there is no room for it |
| FatFile.File.WriteAll | src/modules/fat/fat_filelib.c:1287-1376 | The loop writes all of the data at the cursor if there is room, and else a part of it, and no old byte is lost |
| FatFile.File.Write | src/modules/fat/fat_filelib.c:1257-1398 | -1 without permission; otherwise all bytes are reported as written, and the sequence is overwritten and extended at the cursor, or at the end when appending, exactly if there is room; the length is marked as changed exactly if it grew; no other file changes |
| FatFile.File.WriteThenFlush | src/modules/fat/fat_filelib.c:900-1398 | After a write and a flush the disk shows the new content exactly if there was room for it, and what is not the file's is as it was |
| FatFile.File.Seek | src/modules/fat/fat_filelib.c:1119-1184 | From the end, only offset 0 is taken, and leads to the length; from the start, to the offset, or 2 to the 32 above a negative one, but not past the end; from the cursor, forward with the sum wrapped at 2 to the 32 and not past the end, back not below 0; other origins are refused; the file keeps its bytes exactly if the forgotten buffer held none that the disk did not |
| FatFile.SeekTargetSmall | src/modules/fat/fat_filelib.c:1139-1174 | Below two gigabytes nothing wraps, and a negative offset from the start goes to the end |
| FatFile.AtTheEnd | src/modules/fat/fat_filelib.c:1119-1398 | Of the plain byte sequence: after a seek to the end a write appends and a read answers -1 |
| FatFile.ReadBack | src/modules/fat/fat_filelib.c:1017-1398 | Of the plain byte sequence: what is written at a position is read back from there, and the bytes before and behind it stay |
| FatFile.File.Run | src/modules/fat/fat_filelib.c:900-1398 | Any sequence of reads, writes, flushes and flushed seeks gives the answers of a byte sequence with a cursor, whose laws are `FatFile.AtTheEnd` and `FatFile.ReadBack`, and ends in the same content and position, and no cluster of another file changed |
| LongNames.CacheEntry | src/modules/fat/fat_misc.c:56-88 | Thirteen bytes of the numbered part change, with 0xFF as a space, and the first entry sets the number of parts |
| LongNames.RunReads | src/modules/fat/fat_misc.c:56-106 | Whatever text the cache held, a whole run of entries reads as the name they spell |
| LongNames.FilenameToLfn | src/modules/fat/fat_misc.c:205-241 | The entry holds its part of the name, the terminator and the padding as 16-bit characters at bytes 1, 14 and 28, its number with the mark on the last part, the checksum, and zeros in the other fields |
| LongNames.RoundTrip | src/modules/fat/fat_misc.c:56-241 | For names of 1 to 260 bytes without 0, reading returns the name with 0xFF as spaces, so the name itself exactly if it has no 0xFF |
| LongNames.WriteName | src/modules/fat/fat_write.c:326-350 | The entries written, the last part first, spell the name |
| LongNames.ReadName | src/modules/fat/fat_access.c:436-454 | Feeding a run to the cache and taking its string gives the name |
| DirEntries.MatchIsEquivalence | src/modules/fat/fat_string.c:259-318 | Comparing names is an equivalence; what it compares is `DirEntries.MatchMeans` |
| DirEntries.MatchMeans | src/modules/fat/fat_string.c:259-318 | Two names match exactly if, once the spaces directly before the last dot, or at the end of a name without one, are taken out, they have the same bytes but for the case of ASCII letters |
| DirEntries.MatchWithoutSpaces | src/modules/fat/fat_string.c:259-318 | Names without spaces match exactly if they have the same bytes but for the case of ASCII letters |
| DirEntries.NameRead | src/modules/fat/fat_access.c:446-492 | At a live entry the scan compares the entry's own name: its long name if one precedes it, else its short one |
| DirEntries.ShortNameFound | src/modules/fat/fat_access.c:463-497 | An entry without a long name is found as stem.ext exactly if its extension is empty or has three bytes |
| DirScan.ScanEntry | src/modules/fat/fat_access.c:436-499 | One entry is a hit exactly if it is live and its name matches, and the cache then holds the text entries before the next one |
| DirScan.ScanSector | src/modules/fat/fat_access.c:427-500 | Stops at the first entry of the directory that has the name, if it is in this sector |
| FatDirectory.Directory.SectorReader | src/modules/fat/fat_access.c:221-270 | The sector buffer holds the wanted sector of the chain, and the call fails exactly behind the last one |
| FatDirectory.Directory.GetFileEntry | src/modules/fat/fat_access.c:408-508 | Finds the first live entry whose name matches, in the sense of `DirEntries.MatchMeans`, and fails only if there is none |
| DirScan.CountSector | src/modules/fat/fat_write.c:152-219 | Stops at the first deleted or blank entry that completes a stretch of enough entries, none of them taken and no live long name among them |
| FatDirectory.Directory.SearchGap | src/modules/fat/fat_write.c:143-225 | Finds the first such stretch, and fails exactly if the directory has none |
| FatDirectory.Directory.Extend | src/modules/fat/fat_write.c:221-246 | The directory's chain grows by the first free cluster, all zeros, and its old sectors stay |
| FatDirectory.Directory.FindFreeOffset | src/modules/fat/fat_write.c:129-261 | Returns the first gap for all the entries, in the directory as it was or, if that has none, lengthened by blank entries; fails exactly if the volume has no cluster for that |
| DirEntries.GapAtEnd | src/modules/fat/fat_write.c:221-257 | After lengthening, the stretch at the end and the new entries are a gap |
| DirEntries.Placed | src/modules/fat/fat_write.c:310-371 | A new file in a gap overwrites no live entry and no long name of one; the live entries are the old ones, each with its name, and the new one |
| DirEntries.Resolution | src/modules/fat/fat_access.c:408-508 | Names that the new one does not match resolve as before, and the new name resolves to the new entry if it was missing |
| DirEntries.ShortEntryReads | src/modules/fat/fat_misc.c:248-277 | The entry gives back its cluster, size, short name and attribute, and is live unless its first byte marks it free |
| FatDirectory.FillSector | src/modules/fat/fat_write.c:310-358 | Writes the parts of the name, the last one first, and then the entry, from the found position on, and nothing else in the sector |
| FatDirectory.Directory.WriteEntries | src/modules/fat/fat_write.c:306-368 | The directory is overwritten with the file's entries exactly at the gap |
| FatDirectory.Checksum | src/modules/fat/fat_write.c:301-304 | The loop computes the checksum, rotate right and add, of all eleven bytes in order |
| FatDirectory.ChecksumTellsApart | src/modules/fat/fat_write.c:301-304 | Short names that differ in one byte have different checksums |
| FatDirectory.RotatedBack | src/modules/fat/fat_write.c:301-304 | The rotation to the right is undone by one to the left |
| FatDirectory.ChecksumOfReadme | src/modules/fat/fat_write.c:301-304 | The checksum of README.TXT is 0x73 |
| FatDirectory.Directory.AddFileEntry | src/modules/fat/fat_write.c:265-371 | Succeeds exactly if the name is not empty and the directory has a gap or the volume a free cluster; adds one live entry with the given name, cluster and size while all others keep theirs; no other file or directory changes |
| DirEntries.AddedResolution | src/modules/fat/fat_access.c:408-508 | After a file was added, every other name resolves as before and the new one to the new entry |
| FatDirectory.Directory.AddThenFind | src/modules/fat/fat_write.c:265-371 | Adding a file and then looking for any name finds the new entry for a matching name that was missing, and what it found before for every other name; matching is that of `DirEntries.MatchMeans` |
| FatFormat.CalcClusterSize | src/modules/fat/fat_format.c:51-94 | The first row of the table that covers the volume, or 0 |
| FatFormat.ClusterBytes | src/modules/fat/fat_format.c:51-71 | The cluster sizes in bytes for each range of volume sizes in bytes, as the specification tabulates them |
| FatFormat.SmallestCluster | src/modules/fat/fat_format.c:51-61 | Above 64 MB, a FAT16 cluster is the smallest power of two of which 65536 cover the volume |
| FatFormat.CreateBootSector | src/modules/fat/fat_format.c:114-346 | Every field that the mount code reads holds the volume's parameter, and volumes without a cluster size are refused |
| FatFormat.EraseFat | src/modules/fat/fat_format.c:391-421 | Both FAT copies are zero but for the reserved entries, and the root cluster's on FAT32, at the start of the first |
| FatFormat.EraseSectors | src/modules/fat/fat_format.c:98-110 | Exactly the given sectors are zero |
| FatFormat.CreateFsInfo | src/modules/fat/fat_format.c:350-387 | Signatures in place, free count and next free cluster unknown |
| FatFormat.Format | src/modules/fat/fat_format.c:425-530 | The disk holds the boot sector, on FAT32 the FSInfo sector, the empty FATs and the empty root directory, and no other sector changed |
| FatFormat.MountsAsFat16 | src/modules/fat/fat_access.c:114-189 | A FAT16 boot sector mounts as what was formatted exactly from 8244 to 4194151 sectors; above, and below 42, it is taken for FAT32, and in between refused |
| FatFormat.MountsAsFat32 | src/modules/fat/fat_access.c:114-189 | Every FAT32 size above 4194304 sectors mounts with the formatter's parameters |
| FatFormat.FormatThenMount | src/modules/fat/fat_access.c:44-189 | Formatting and mounting give the formatter's parameters back, for exactly those sizes |
| FatFormat.FatLargeEnough | src/modules/fat/fat_format.c:182-186 | The FAT has an entry for every data cluster, and always more than that |
| FatFormat.FullVolume | src/modules/fat/fat_table.c:287-340 | On a volume with free entries behind its clusters, the search ends inside exactly if a data cluster is free, and else at a cluster whose last sector is behind the end of the volume |
| FatFormat.FullSmallVolume | src/modules/fat/fat_table.c:287-340 | On the smallest FAT16 volume with all 4085 clusters used, the search returns cluster 4087, which the volume does not have |
| FatFormat.PlacesApart | src/modules/fat/fat_access.c:196-202 | Distinct sectors of data clusters have distinct addresses, behind the FATs and the root directory and inside the volume |
| FatFormat.EmptyTable | src/modules/fat/fat_format.c:391-421 | The FAT of a new volume has only the reserved entries and the root directory's in use |
| FatFormat.NewVolume | src/modules/fat/fat_access.c:44-189 | Every volume size that mounts as formatted gives a valid volume whose FAT is a set of chains, with the FAT, the FSInfo sector, the root directory and cluster 2 where the formatter put them |
| HeapShape.CellsDisjoint | src/kernel/liballoc.c:244-587 | Live cells do not overlap, headers included |
| HeapShape.UserRangeInside | src/kernel/liballoc.c:244-587 | A user range is 16-byte aligned, as long as requested, behind its own header and alignment byte and inside its block |
| HeapShape.UserRangesSafe | src/kernel/liballoc.c:244-587 | No byte of a user range is in another user range, a header or an alignment byte |
| HeapShape.UsageFits | src/kernel/liballoc.c:381-396 | Usage is the header plus the sizes and headers of the cells, and never exceeds the block |
| HeapLinks.LinkInRep | src/kernel/liballoc.c:456-540 | Writing a header and relinking its neighbours represents the block with the new cell in its place |
| HeapLinks.LinkOutRep | src/kernel/liballoc.c:681-684 | Relinking the neighbours represents the block without the cell |
| HeapLinks.MajorGrown | src/kernel/liballoc.c:561-566 | Linking a block behind the last one represents the longer list |
| HeapLinks.MajorShrunk | src/kernel/liballoc.c:691-699 | Unlinking a block represents the list without it |
| Liballoc.Heap.constructor | src/kernel/liballoc.c:91-102 | An empty heap |
| Liballoc.Heap.Align | src/kernel/liballoc.c:23-36 | The pointer is the aligned one and the byte 16 below it holds the distance to the cell |
| Liballoc.Heap.Insert | src/kernel/liballoc.c:382-540 | The new cell is in its gap, both lists and the totals represent that, and only the alignment byte was written besides |
| Liballoc.Heap.TryBlock | src/kernel/liballoc.c:379-542 | The cell goes to the first gap of the block that takes it; failing means that no gap does |
| Liballoc.Heap.TryAfterEach | src/kernel/liballoc.c:452-540 | The first gap behind a cell that takes the new one; failing means that no gap does |
| Liballoc.NoGapMeans | src/kernel/liballoc.c:379-542 | A block has no gap for a cell exactly if it has no such number of bytes in a row that are behind its header and in no cell |
| Liballoc.FirstGapIsLowest | src/kernel/liballoc.c:379-542 | The first gap begins at the lowest address of the block with so many free bytes |
| Liballoc.Heap.Grow | src/kernel/liballoc.c:188-238 | A block at the end of the list, of the least number of pages that hold the request but at least the configured one, or nothing if the page source refuses |
| Liballoc.Heap.StartSearch | src/kernel/liballoc.c:314-329 | The search starts at the best bet exactly if that has more than enough bytes free, else at the root |
| Liballoc.Heap.NextBlock | src/kernel/liballoc.c:546-571 | Next block, back to the root after a best-bet start, or one new block |
| Liballoc.Heap.Visit | src/kernel/liballoc.c:331-542 | The cell is placed, as the first fit, if the block has a gap; the best bet is then the block with the most free bytes of those looked at so far, this one included, if that has more than the old best bet, and else the old one |
| Liballoc.BetStep | src/kernel/liballoc.c:333-343 | Looking at one more block keeps the best bet the one with the most free bytes of those seen |
| Liballoc.Heap.Malloc | src/kernel/liballoc.c:244-587 | Ends, and puts a cell of the requested size into the first gap met from the best bet or the root on, or into a new block if there is none; moves no cell; fails exactly if no block has a gap and the page source refuses; the new best bet is the block with the most free bytes, as they were, of those that the search looked at, if they are more than those of the old one |
| Liballoc.FirstFitAllocates | src/kernel/liballoc.c:244-587 | A first fit adds one cell, in a gap that was large enough or in a new block |
| Liballoc.Heap.RecoveredCell | src/kernel/liballoc.c:38-47 | The header found from a live user pointer is that of its cell |
| Liballoc.Heap.Unlink | src/kernel/liballoc.c:674-686 | Exactly that cell leaves its block, and the totals follow |
| Liballoc.Heap.BetterBet | src/kernel/liballoc.c:703-713 | The block that a cell was freed in becomes the best bet exactly if it has more bytes free |
| Liballoc.Heap.DropBlock | src/kernel/liballoc.c:689-700 | An empty block leaves the list; the best bet is given up exactly if it was that block |
| Liballoc.Heap.Free | src/kernel/liballoc.c:597-720 | A warning for null, an error for a lost magic, and otherwise exactly the cell of the pointer goes, with its block if that was its last; the best bet is given up if its block goes, and is else the block of the cell if that now has more bytes free than it |
| Liballoc.Heap.Store | src/kernel/liballoc.c:244-587 | A caller's store to a requested byte keeps the heap valid |
| Liballoc.Heap.CopyBytes | src/kernel/liballoc.c:118-141 | Between disjoint ranges, the destination gets the source's bytes and nothing else changes |
| Liballoc.Heap.Shrink | src/kernel/liballoc.c:814-821 | The cell stays where it is with a smaller request |
| Liballoc.Heap.Move | src/kernel/liballoc.c:823-830 | The old requested bytes are at the new pointer, all other bytes stay, and the old cell is freed, even if there is no new one, which is so exactly if no gap takes it and the page source refuses; the best bet is what malloc and then free make of it |
| Liballoc.Heap.Realloc | src/kernel/liballoc.c:742-831 | Free for size 0, malloc for null, an error for a lost magic, the same cell for a smaller request, else a larger cell with the old bytes, or null exactly if malloc fails |
| MemCopy.LoadWord | src/kernel/memcpy.c:224-296 | Every word read holds a byte that the copy needs |
| MemCopy.ShiftedBytes | src/kernel/memcpy.c:260-296 | Two source words shifted together are the next four bytes of the copy |
| MemCopy.CopyRemaining | src/kernel/memcpy.c:207-222 | The last bytes, one by one |
| MemCopy.CopyNoShift | src/kernel/memcpy.c:224-256 | With both pointers aligned: single words up to a multiple of eight, then eight at a time, then the bytes left |
| MemCopy.CopyShift | src/kernel/memcpy.c:260-296 | With the source off by one to three bytes, the same through a carried word |
| MemCopy.AlignTarget | src/kernel/memcpy.c:327-330 | Bytes up to the first aligned destination |
| MemCopy.Memcpy | src/kernel/memcpy.c:314-346 | For every length and alignment the destination equals a snapshot of the source, also when it overlaps the source from below |
| MemCopy.Memmove | src/kernel/util.cpp:97-118 | The destination equals a snapshot of the source for all lengths, alignments and overlaps |
| SchedulePass.MinDynReached | src/kernel/scheduler.cpp:273-289 | Some runnable thread has the smallest dynamic priority |
| SchedulePass.FindKeeps | src/kernel/scheduler.cpp:271-331 | A choice changes no status, priority, process or cycle stamp |
| SchedulePass.FindChooses | src/kernel/scheduler.cpp:271-331 | Without a directed yield every runnable thread loses the minimum, within 32 bits and without underflow, and the chosen thread is a runnable one that is then at 0 |
| SchedulePass.FindLast | src/kernel/scheduler.cpp:310-322 | Of the runnable threads with the smallest dynamic priority the last one in the table is chosen |
| SchedulePass.FindFades | src/kernel/scheduler.cpp:310-331 | Without a directed yield, the load of the chosen thread grows by one up to 128, that of the others with the smallest dynamic priority stays, and every other one falls by one |
| SchedulePass.DirectedChoice | src/kernel/scheduler.cpp:298-309 | A directed yield reaches the first runnable thread of the process that it names exactly if no runnable thread of the process to go back to, process 0 if none was named, is behind it in the table; no thread but the chosen one changes |
| SchedulePass.NobodyToYieldTo | src/kernel/scheduler.cpp:298-322 | With no runnable thread in that process the choice is as without the yield, which stays asked for |
| SchedulePass.StepRestarts | src/kernel/scheduler.cpp:323-331 | A scheduled thread starts again at its priority plus its load, capped at 32 bits, and its load grew by two up to 128, while no other load grew |
| SchedulePass.FindWait | src/kernel/scheduler.cpp:271-331 | The measure of a waiting thread (its dynamic priority, then the number of threads at 0) never grows by a choice |
| SchedulePass.LinkWait | src/kernel/scheduler.cpp:563-572 | Putting another thread on the schedule lowers the measure of a waiting one |
| SchedulePass.FillLinks | src/kernel/scheduler.cpp:550-578 | A pass, directed yields included, ends, links pairwise distinct threads and changes no other cycle stamp |
| SchedulePass.FillIdle | src/kernel/scheduler.cpp:556-574 | The idle thread is scheduled first or not at all |
| SchedulePass.FillEnds | src/kernel/scheduler.cpp:556-574 | A pass goes on until no thread is runnable or its next choice is on the schedule already or is the idle thread behind others |
| SchedulePass.FillWait | src/kernel/scheduler.cpp:550-578 | A pass that leaves a thread out does not raise its measure, and lowers it if it linked anybody |
| Starvation.SomePassLinks | src/kernel/scheduler.cpp:550-578 | Of any n + 1 passes in a row, one links a thread, also when the cycle counter wraps |
| Starvation.WaitNeverGrows | src/kernel/scheduler.cpp:271-331 | Over a run the measure of a waiting thread never grows |
| Starvation.NoStarvation | src/kernel/scheduler.cpp:271-331 | A thread that stays runnable is linked within a bounded number of passes, however others block and wake |
| Starvation.WokenIsLinked | src/kernel/scheduler.cpp:271-331 | A blocked thread whose block check succeeds, and that then stays runnable, is linked within that bound, counted from the pass that woke it |
| Scheduler.Table.Scan | src/kernel/scheduler.cpp:272-289 | On the first call of a cycle exactly the blocked threads whose block check succeeds become runnable, nobody else changes, and the smallest dynamic priority of a runnable thread is found |
| Scheduler.Table.SearchPreferred | src/kernel/scheduler.cpp:298-309 | The last runnable thread of the process that a directed yield wants |
| Scheduler.Table.AgeThreads | src/kernel/scheduler.cpp:310-322 | Every runnable thread loses the minimum, and the last one at 0 is due |
| Scheduler.Table.FindThread | src/kernel/scheduler.cpp:271-331 | Computes the choice of the pass function; exactly the blocked threads whose check succeeds are awake afterwards, and no other status changed |
| Scheduler.Table.FillSchedule | src/kernel/scheduler.cpp:556-574 | Computes the pass function and links its threads in order |
| Scheduler.Table.Preschedule | src/kernel/scheduler.cpp:550-578 | Exactly the blocked threads whose check succeeds are awake, the chain from the prescheduler is the pass's threads, pairwise distinct and runnable, and no other link changed |
| Scheduler.PassWakes | src/kernel/scheduler.cpp:271-279 | Over a whole pass, exactly the blocked threads whose check succeeds become runnable and no other status changes |
| Scheduler.Table.Schedule | src/kernel/scheduler.cpp:333-363 | Panics exactly if the caller does not hold the scheduler lock; otherwise resumes the next thread of the schedule, the one behind if that has stopped, or the prescheduler, so that the resumed thread may run exactly if not both of the next two have stopped; neither check of the hand-over fails, the resumed thread holds the lock with the caller's nesting, nobody else is inside, and the lock's invariant is kept |
| Scheduler.Table.LockStep | src/kernel/locks.cpp:21-115 | A step that is no misuse does not panic and keeps the lock's invariant over the whole trace |
| Scheduler.Table.Yield | src/kernel/scheduler.cpp:365-376 | Switches exactly if the scheduler lock is free, which it is again afterwards, and nothing on the way panics |
| Scheduler.Table.Round | src/kernel/scheduler.cpp:333-376 | From the prescheduler on, yields visit every runnable thread of the schedule once, in order, and then the prescheduler, and take away the links of exactly those, also when threads have stopped since, but no two in a row |
| Scheduler.Table.Cycle | src/kernel/scheduler.cpp:550-578 | A pass under the lock, which wakes exactly the blocked threads whose check succeeds, and the yields after it run exactly the threads that the pass chose, in the order of its choices, and leave lock and links as they found them |
| Locks.StepKeepsInv | src/kernel/locks.cpp:21-115 | Each step of the interleaved protocol keeps one owner, the count equal to the owner's nesting depth outside the transition windows, and 0 for a free lock |
| Locks.PanicsOnlyOnMisuse | src/kernel/locks.cpp:21-115 | A step panics exactly if its caller misuses the lock |
| Locks.ReachableInv | src/kernel/locks.cpp:21-115 | The invariant holds after every run |
| Locks.MutualExclusion | src/kernel/locks.cpp:21-115 | No two threads are inside after any run, and the count is the nesting depth or, in a transition, 0 |
| Mmap.SplitPartitions | src/kernel/mm2/mm2_mmap.cpp:120-144 | For every pointer, offset and size above one page, start, whole pages and end partition the range |
| Mmap.EagerView | src/kernel/mm2/mm2_mmap.cpp:25-34 | An eager copy shows the file's bytes |
| Mmap.LazyView | src/kernel/mm2/mm2_mmap.cpp:36-55 | With both ends copied and the pages absent, the view is the file's bytes too |
| Mmap.FetchKeepsView | src/kernel/mm2/mm2_mmap.cpp:96-118 | Bringing in a page changes no byte that is seen |
| Mmap.WriteBackKeepsView | src/kernel/mm2/mm2_mmap.cpp:70-91 | Writing bytes back changes the file to the view and not the view |
| Mmap.DropKeepsView | src/kernel/mm2/mm2_mmap.cpp:82-91 | A page that the file holds can be dropped unseen |
| Mmap.MappedFile.ReadInto | src/kernel/mm2/mm2_mmap.cpp:36-48 | Bytes from the file position into memory, as many as there are |
| Mmap.MappedFile.FreeAndGuard | src/kernel/mm2/pagedirectory.cpp:269-303 | Exactly the whole pages become absent guard pages |
| Mmap.MappedFile.DoMapping | src/kernel/mm2/mm2_mmap.cpp:25-55 | The mapped range shows the file's bytes, other memory and the file position stay |
| Mmap.MappedFile.Map | src/kernel/mm2/mm2_mmap.cpp:120-162 | The same for a new mapping of any pointer, offset and size |
| Mmap.MappedFile.FetchPage | src/kernel/mm2/mm2_mmap.cpp:96-118 | Exactly that page becomes present and nothing that is seen changed |
| Mmap.MappedFile.HandleFault | src/kernel/mm2/pagedirectory.cpp:329-341 | Handled exactly if the address is on an absent whole page of a lazy mapping, which is then the one page brought in |
| Mmap.MappedFile.LoadByte | src/kernel/mm2/pagedirectory.cpp:329-341 | After any order of faults, byte k is the file's byte or the last store to it |
| Mmap.MappedFile.StoreByte | src/kernel/mm2/pagedirectory.cpp:329-341 | A store changes the view in that byte only |
| Mmap.MappedFile.FlushPage | src/kernel/mm2/mm2_mmap.cpp:82-91 | A present page is written and becomes a guard page, the view unchanged |
| Mmap.MappedFile.Flush | src/kernel/mm2/mm2_mmap.cpp:57-94 | The file equals the view in the mapped range and is unchanged elsewhere, and the view is the same |
| Messaging.Messages.constructor | src/kernel/messaging.cpp:47-59 | Every process has an empty queue, nothing was sent, and the pool holds its minimum of headers |
| Messaging.Messages.TakeSpare | src/kernel/messaging.cpp:21-33 | A header block that is neither pooled nor queued, from a pool that is refilled with its minimum of new blocks when empty |
| Messaging.Messages.ReleaseHeader | src/kernel/messaging.cpp:35-45 | The block returns to the pool, or a full pool is trimmed to one more than its minimum |
| Messaging.Messages.FindMessage | src/kernel/messaging.cpp:145-154 | The message with that id in the process's own queue, or none |
| Messaging.Messages.MarkReplied | src/kernel/messaging.cpp:80-87 | Exactly the answered message is marked |
| Messaging.Messages.Deliver | src/kernel/messaging.cpp:61-100 | The message gets an id above those of all messages there are and goes to the end of its receiver's queue, no other queue changes, of the old messages only the answered one is marked, and no header is both pooled and queued |
| Messaging.Messages.SendUser | src/kernel/process.cpp:656-699 | Accepted exactly if both processes live and the pair has no unacknowledged message, waiting otherwise; an accepted one goes to the end of the receiver's queue with the next id |
| Messaging.Messages.SendKernel | src/kernel/messaging.cpp:61-100 | A kernel message goes to the end of the receiver's queue with the next id, owns its content and takes no sender's buffer |
| Messaging.Messages.SendReply | src/kernel/process.cpp:656-699 | Accepted exactly if the replier has queued, unanswered, a message with that id from the receiver, and then goes to the end of the receiver's queue; a refused one leaves its copy allocated |
| Messaging.Messages.Receive | src/kernel/messaging.cpp:102-111 | Succeeds exactly if the process has a message; it is the one with the least id of all for that process, marked as received |
| Messaging.Messages.Acknowledge | src/kernel/messaging.cpp:168-193 | Exactly that message leaves its queue, the others keep their order, its content is freed once and nothing else is, and the sender's buffer becomes available |
| Messaging.OldestFirst | src/kernel/messaging.cpp:61-111 | In every state the head of a queue is the oldest of all messages for its process |
| Messaging.PushOrder | src/kernel/messaging.cpp:61-100 | A message with a larger id than all others keeps every queue in rising order |
| Messaging.PushLog | src/kernel/messaging.cpp:61-100 | In the log of everything sent, ids count up and each message has at most one reply, from its receiver to its sender |
| Messaging.PushBuffers | src/kernel/process.cpp:656-699 | Each pair keeps at most one buffered message, and the buffer is its content |
| Messaging.DropBuffers | src/kernel/process.cpp:638-645 | Freeing the buffer of the acknowledged message leaves every other pair's alone |
| Clock.MonthsFillYear | src/modules/rtc/clocktime.cpp:27-37 | The twelve months make up the year, leap years too |
| Clock.CalendarFormula | src/modules/rtc/clocktime.cpp:5-37 | The days up to the first of any month are those of the closed formula of the Gregorian calendar |
| Clock.EpochSecondsInjective | src/modules/rtc/clocktime.cpp:39-53 | No two normal datetimes share a second |
| Clock.DatetimeToEpoch | src/modules/rtc/clocktime.cpp:39-53 | Milliseconds since the epoch year, in wrapping 64-bit arithmetic |
| Clock.EpochToDatetime | src/modules/rtc/clocktime.cpp:55-80 | The normal datetime of that second, with the month always from 1 to 12 |
| Clock.RoundTrip | src/modules/rtc/clocktime.cpp:39-80 | A datetime comes back unchanged exactly if it is normal; a chip reading of the last day of a month comes back as day 0 of the next |
| Clock.RoundTripEpoch | src/modules/rtc/clocktime.cpp:39-80 | Milliseconds come back without their part of a second |
| Clock.ReadingIsNormalExceptOnLastDay | src/modules/rtc/clocktime.cpp:39-80 | Every chip reading names the second of a normal datetime, which is the reading itself exactly if it is not on the last day of a month |
| Clock.Rtc.UpdateMsecCounter | src/modules/rtc/rtc.cpp:137-148 | The counter takes in the pending interrupts, and a resynchronisation is due after five seconds |
| Clock.Rtc.SecondOfInterrupts | src/modules/rtc/rtc.cpp:137-148 | The 1024 interrupts of a second count as 999 milliseconds |
| Clock.Rtc.GetMsecs | src/modules/rtc/rtc.cpp:150-157 | The counter with nothing pending |
| Clock.Rtc.CurrentDatetime | src/modules/rtc/clocktime.cpp:86-88 | The normal datetime of boot time plus counter |
| Clock.CounterMoved | src/modules/rtc/rtc.cpp:120-135 | Moving the counter by the difference of whole seconds puts the time on the chip's second exactly if the chip is not behind the boot time |
| Clock.Rtc.ResyncClock | src/modules/rtc/rtc.cpp:120-135 | The time then agrees with the chip to the second exactly if the chip is not behind the boot time, and else it is the boot time |
| Clock.Rtc.ResyncThenRead | src/modules/rtc/rtc.cpp:120-135 | The clock shows the chip's reading exactly if that is also normal, and a last day as day 0 of the next month |

## Left out

- Port I/O, DMA, interrupt and context-switch code, device drivers and the C library helpers: hardware effects or small easy members.
- I/O failures of the disk: every sector read and write succeeds.
- The second FAT copy, the disabled cluster cache and multi-cluster allocation for a new file.
- Opening, closing and deleting files by path, short-name generation, and the directory listing.
- FatVolume.Volume.AddFreeSpace: nothing is said about the table once a cluster was taken whose number a link cannot hold.
- FatVolume.Volume.AllocateFirst: a new file of one cluster, the only size that the library asks for.
- FatVolume.Volume.constructor: the FAT has fewer entries than 32-bit cluster numbers, which no volume of the formatter exceeds.
- FatFile.File.Write: a write without room assumes that no FAT entry outside the volume is free (`FatFormat.FullVolume` says where the search leads when one is) and that a cluster has at least two sectors, as on every volume of the formatter. Calls on a file whose last write failed are not modelled, but for flushing.
- FatFile.File.Read: cursor and count stay within 32 bits, as they do in files below two gigabytes.
- FatFile.File.constructor: the file has at least one cluster, as every file that the library creates has, and it is the only open handle on the file.
- FatDirectory.Directory.SectorReader: a directory is a cluster chain; the fixed root directory of a FAT16 volume is not modelled.
- FatDirectory.Directory.Extend: the first free cluster is one of the volume's, or there is none.
- FatDirectory.Directory.AddFileEntry: a directory without a gap can be extended in that sense, and one new cluster takes all the entries of the name, which two sectors to a cluster always do.
- Heap requests within 56 bytes of 4 GB, whose padded size would wrap, and calloc.
- Liballoc.Heap.Realloc: when growing fails, the source copies to address 0; the heap must not be there.
- Liballoc.Heap.Free: a pointer is null, live, or leads to memory without the header magic.
- Scheduler.Table.Preschedule: threads are records of a table named by their index, not heap objects; the test of a negated priority against 0xFFFFFFFF in the source is always false and has no effect.
- Scheduler.Table.Round: of the threads that stop after the pass, no two are neighbours in the schedule; what happens then is `Scheduler.Table.Schedule`. Which threads stop is fixed when the round begins.
- Starvation.NoStarvation: the thread set is fixed, priorities are at least 1, no process asks for a directed yield, and there are fewer threads than 32-bit cycle numbers.
- Locks.StepKeepsInv: nesting depths stay below 2 to the 32; of the try_take variants only the exclusive one of a yield is modelled, and abort levels are not.
- Mmap.MappedFile.Map: one mapping, of a range that the file covers, in one page directory.
- Messaging.Messages.Acknowledge: the receipt that it may send afterwards is a kernel message of its own; process teardown and message filters are not modelled.
