# A verified model of the FAT engine and the kernel core

The project models the FAT12/16/32 engine of the operating system and six parts of its kernel and library, and proves what
each of them is for. `dafny verify dfyconfig.toml` checks everything.

**The FAT engine** (`src/filesystem/fat/FatFs.cpp`) is modelled in its own form: classes whose methods change a window, a buffer,
cursors and a device step by step, and every method is tied to a simple meaning.

- A device (`StorageDevice.dfy`) is an array of 512-byte sectors. Any operation on it may fail, and a failed one leaves arbitrary bytes
  where it was to store data; `Healthy` says that none fails.
- The one-sector write-back window (`FatWindow.dfy`, `FatVolume.dfy`, `WindowRuns.dfy`) is transparent: what a volume holds is the
  device with the dirty window laid over it, and every sequence of accesses through the window is one of direct accesses.
- The bit-packed allocation table (`FatTable.dfy`) is an array of entries, read and written through that window, FAT12 entries that
  straddle bytes and sectors included.
- The cluster allocator (`Chains.dfy`, `ChainRuns.dfy`) keeps the table a set of disjoint acyclic chains, and the cached free count right;
  `FreeCounts.dfy` and `CountWitness.dfy` say when a scan for free clusters counts them.
- An open file (`FileModel.dfy`, `FileState.dfy`, `FatFile.dfy`, `FileRuns.dfy`), with its dirty sector buffer, its direct transfers and
  its cursor over the chain, is a plain sequence of bytes with a cursor and a number of clusters it can have (`PlainFiles.dfy`). A run of
  operations is determined by its start, but for the bytes a seek behind the end adds: which operation falls short, and where it stops,
  follows from the clusters. No other chain, and no sector of another chain, is changed by using the file.
- A directory (`LongNames.dfy`, `ShortNames.dfy`, `DirTable.dfy`, `NewNames.dfy`, `DirState.dfy`, `DirFootprint.dfy`,
  `FatDirectory.dfy`, `DirRuns.dfy`) is a lookup from names to entries, which `DirLookup.dfy` states over the bytes of the table.
  Deleting a name changes the lookups that led to it and no others, and creating one those that match it, by its name or its short name,
  and found nothing in front of it. No other chain, and no sector of another chain, is changed by that either.
- The formatter agrees with the mounter (`FormatPlan.dfy`, `FormatLimits.dfy`, `BootSector.dfy`, `FatFormat.dfy`), and finds a layout for
  an exact range of volume sizes. What the one writes and the other accepts is stated byte by byte (`FormatBytes.dfy`, `MountBytes.dfy`).
- Where on the device all this lies is stated by addresses (`OnDisk.dfy`).

**The kernel and its library.**

- The priority scheduler is a state machine over values (`SchedulerState.dfy`), which the class in `Scheduler.dfy` refines step by step:
  every thread is in one place, and a ready thread waits for a bounded number of dispatches. `PriorityPattern.dfy` has the pattern that
  chooses the next queue.
- Two-level page directories that share the tables of the kernel half (`Paging.dfy`) are flat maps from pages to entries, and so they are
  over every sequence of operations on all address spaces (`PagingRuns.dfy`): no address space has a say in the user half of another.
- Boot layering (`BootLayers.dfy`, `BootCircles.dfy`, `BootCoordinator.dfy`): when it ends, which layers it makes, and in which order
  components start.
- Packets of the debugger stub (`GdbPackets.dfy`), the packed bitmap (`Bitmap.dfy`), and the spinlock as interleaved steps (`Spinlock.dfy`).

Some conventions. The allocation limits of the FAT types are those of the code (`src/filesystem/fat/FatFs.h:185-187`), which are not
those of the Microsoft FAT specification. Numbers are unbounded, and 32-bit wrap-around is written out where the code relies on it: the
unsigned tests of the window and of direct transfers, the cluster number test, the end of a request that would reach 4 GiB, the table
sizes of the formatter, the fields of the boot sector, the rounding of address ranges, the 8-bit counter of the priority pattern.
Elsewhere a volume is taken to fit into 32-bit sector numbers. Upper-casing is an arbitrary function `up`, of which at most is asked that
only zero becomes zero. The amount of memory an allocation gets, the volume serial number and the physical addresses an allocator returns,
which are those of pages not in use, are parameters. The code's error returns are results of the methods; an exception of the kernel is
`ok == false`, with nothing changed where the contract does not say otherwise. Names have no unit 0 or 0xFFFF, which the conversion in front of this code does not produce.

Several things one would expect of the code do not hold, and the exact condition is proved instead: reading back a long name (at most 253
units), looking one up (at most 254), that a name found before another one is created is found at its old place (unless it matches the new
name or its short name and was found behind it), the count of free clusters that a scan keeps, the two ways of counting them, the volume a
mounted boot sector describes, the pages of a range that is mapped and of one that is unmapped, the place of every thread after a step of
the scheduler, the end of the boot layering, and mutual exclusion of the spinlock.

## Model

| member | source | states |
|---|---|---|
| FatVolumes.FatVolume.SyncWindow | src/filesystem/fat/FatFs.cpp:285-299 | Writing the window back changes nothing the volume holds, with one table or two; it is clean afterwards, and on a device that works this succeeds |
| FatVolumes.FatVolume.Reflect | src/filesystem/fat/FatFs.cpp:291-294 | The copy to the second table, whose result is ignored, changes nothing the volume holds; the two tables are equal again if they were |
| FatVolumes.FatVolume.MoveWindow | src/filesystem/fat/FatFs.cpp:301-316 | The volume holds the same bytes, and the window shows those of the new sector, also when it was dirty with another; of the second table it shows what the device has; a failure loses nothing |
| FatVolumes.FatVolume.Edit | src/filesystem/fat/FatFs.cpp:301-316 | Overwriting bytes of the window and marking it dirty overwrites the same bytes of the volume and no others |
| WindowRuns.AccessAll | src/filesystem/fat/FatFs.cpp:285-316 | Every sequence of looks and changes through the window sees what direct access sees; after the final write back the device holds what direct access would have left and the second table is a copy of the first if it was |
| FatWindow.MirrorWritten | src/filesystem/fat/FatFs.cpp:285-299 | Between the two writes the tables differ at most in the sector of the dirty window |
| FatWindow.MirrorReflected | src/filesystem/fat/FatFs.cpp:291-294 | Writing the copy restores the equality of the two tables in every byte |
| FatTable.EntryInside | src/filesystem/fat/FatFs.cpp:1261-1268 | Every byte of every entry lies inside a table of the size the mount check demands, for all three types |
| FatTable.StoredSame | src/filesystem/fat/FatFs.cpp:385-426 | A stored entry reads back as the value modulo 2^12, 2^16 or 2^28; the four reserved bits of a FAT32 entry stay |
| FatTable.StoredOther | src/filesystem/fat/FatFs.cpp:385-426 | Every other entry reads as before, also the FAT12 neighbour that shares a byte with the stored one |
| FatTable.StoredEntries | src/filesystem/fat/FatFs.cpp:385-426 | Storing into the bytes of the table is an update of the array of entries at that index only |
| FatTable.EntryByBytes | src/filesystem/fat/FatFs.cpp:347-383 | What an entry is by the bytes of the table: two of 12 bits in three bytes, or little-endian words of 16 or 28 bits |
| OnDisk.EntryOnVolume | src/filesystem/fat/FatFs.cpp:347-383 | The entries lie in the sectors of the first table |
| FatWindow.EntryWritten | src/filesystem/fat/FatFs.cpp:385-426 | The bytes written lie inside the table, and the update leaves the reserved bits and everything in front of and behind the table alone |
| FatWindow.ByteByByte | src/filesystem/fat/FatFs.cpp:392-404 | Two separate byte writes make up the FAT12 entry; the first alone amounts to storing some other value, so a failure in between harms that entry only |
| FatVolumes.FatVolume.GetFat | src/filesystem/fat/FatFs.cpp:347-383 | Reads the array of entries, changes nothing the volume holds; 1 for a number that is no cluster, 0xFFFFFFFF only on a device error |
| FatVolumes.FatVolume.PutFat | src/filesystem/fat/FatFs.cpp:385-426 | Writes the array of entries at that index only, masked to the entry width; on a device error that one entry is all that may differ; boot area, reserved bits and data area unchanged |
| Chains.ChainDistinct | src/filesystem/fat/FatFs.cpp:462-522 | No cluster appears twice on a chain: chains are acyclic |
| Chains.LinkSound | src/filesystem/fat/FatFs.cpp:462-522 | In a table made of disjoint chains no link points to a free cluster and no entry is 1 |
| Chains.OnePredecessor | src/filesystem/fat/FatFs.cpp:462-522 | In a table made of disjoint chains no cluster has two predecessors |
| Chains.NewChain | src/filesystem/fat/FatFs.cpp:507-516 | Taking a free cluster adds a chain of one link and keeps the set of disjoint chains |
| Chains.StretchChain | src/filesystem/fat/FatFs.cpp:507-516 | Linking a free cluster behind a tail stretches that chain and keeps all others |
| Chains.CutChain | src/filesystem/fat/FatFs.cpp:428-460 | Freeing a chain from any link on, ending its predecessor, keeps the rest of it and all other chains |
| Chains.UnlinkedChain | src/filesystem/fat/FatFs.cpp:442-457 | Following the links of a chain frees exactly its clusters and never meets an entry 1 |
| Chains.TakenCount | src/filesystem/fat/FatFs.cpp:507-516 | Allocation leaves exactly one free cluster less |
| FatVolumes.FatVolume.FindFree | src/filesystem/fat/FatFs.cpp:481-506 | The search goes on from the start cluster around the end of the table, and takes the first free cluster; it ends from every start, reports a full volume only when no entry from 2 on is free, and 1 only for an entry 1 that comes before any free one |
| FatVolumes.FatVolume.CreateChain | src/filesystem/fat/FatFs.cpp:462-522 | Returns the next link, or takes a free cluster as the new tail and links it, with no other entry changed. Which one it takes is next fit: the one behind the tail if that is free, else the first behind the cluster allocated last. 0 means full, 1 an insane table, and nothing outside the table changes; also after a device error no entry in use has changed but that of the tail; a right cached count stays right; the number of clusters that can be had falls by one exactly when one is taken |
| FatVolumes.FatVolume.EndMark | src/filesystem/fat/FatFs.cpp:507 | The end of a chain is an entry with all its bits set, which is no cluster |
| FatVolumes.FatVolume.RemoveChain | src/filesystem/fat/FatFs.cpp:428-460 | Ends on every table, cyclic ones included; frees the clusters reached by the links, ends the predecessor, reports an entry 1 on the way; a cached count grows by the clusters freed, as far as there are clusters, a right one stays right, and where the next search starts is unchanged |
| ChainRuns.RemoveFrees | src/filesystem/fat/FatFs.cpp:428-460 | On a chain, that is exactly the links from the given one on |
| ChainRuns.StepKeepsChains | src/filesystem/fat/FatFs.cpp:428-522 | One allocation or release keeps the table a set of disjoint acyclic chains and replaces just the chain it works on |
| ChainRuns.RunKeepsChains | src/filesystem/fat/FatFs.cpp:428-522 | Every run of allocations and releases does so, and every chain no operation works on is still there |
| ChainRuns.CreateOnChains | src/filesystem/fat/FatFs.cpp:462-522 | The allocator itself: behind the tail of a chain or for a new one it keeps the chains, never reports an insane table, and with a right cached count reports full exactly when no cluster is free |
| ChainRuns.RemoveFromChain | src/filesystem/fat/FatFs.cpp:428-460 | Releasing from a head, or from a link with its predecessor, keeps the chains and a right cached count |
| FatVolumes.FatVolume.ScanEntries | src/filesystem/fat/FatFs.cpp:1815-1823 | Counts the free clusters up to the entry it stops at, which is the first entry 1, or one the device could not read |
| FatVolumes.FatVolume.ScanSectors | src/filesystem/fat/FatFs.cpp:1824-1842 | The sector-wise scan counts the same zeros as one entry at a time would, the two reserved entries included |
| FatVolumes.FatVolume.GetFree | src/filesystem/fat/FatFs.cpp:1798-1851 | The cached count when it is in range, otherwise the count of the scan, which is then cached, also when the scan failed. On a device that works, the count kept is the number of free clusters if and only if, with entries of 12 bits, no free cluster lies behind an entry 1, and otherwise neither reserved entry is 0 |
| FreeCounts.ScanCounts | src/filesystem/fat/FatFs.cpp:1824-1842 | What the two reserved entries add to a sector-wise count |
| FreeCounts.CountsAgree | src/filesystem/fat/FatFs.cpp:1815-1842 | The two ways of counting agree if and only if neither reserved entry is 0 |
| FreeCounts.PartialCount | src/filesystem/fat/FatFs.cpp:1844-1846 | A count from cluster 2 on that stopped early is right if and only if no cluster from there on is free |
| FreeCounts.PartialScan | src/filesystem/fat/FatFs.cpp:1824-1846 | A count from entry 0 on that stopped early is right if and only if the reserved entries it counted are as many as the free clusters it did not get to |
| FreeCounts.StoppedCount | src/filesystem/fat/FatFs.cpp:1815-1823 | A count that stops at the first entry 1 is right if and only if no free cluster lies behind an entry 1 |
| CountWitness.WrongCountKept | src/filesystem/fat/FatFs.cpp:1798-1851 | The scan itself, on a volume with a working device: it fails at the entry 1 of cluster 3 and keeps the count 1, although two clusters are free |
| FreeCounts.RoomNone | src/filesystem/fat/FatFs.cpp:478-506 | No more clusters can be had exactly when the count says so or none is free |
| FreeCounts.RoomTaken | src/filesystem/fat/FatFs.cpp:510-520 | Taking a cluster leaves one less that can be had, whether the cached count is right, wrong or unknown |
| FreeCounts.SomeFree | src/filesystem/fat/FatFs.cpp:499-504 | The count of free entries is 0 exactly when there is none |
| FileState.ClusterNumber | src/filesystem/fat/FatFs.cpp:341-345 | The first sector of every cluster, through the unsigned subtractions |
| FileState.InRunTest | src/filesystem/fat/FatFs.cpp:1476-1478 | The unsigned subtraction finds whether the buffer holds one of the sectors transferred directly, and which |
| FileState.Flushed | src/filesystem/fat/FatFs.cpp:1483-1486 | Writing the dirty buffer back changes no byte the file sees |
| FileState.DirectlyRead | src/filesystem/fat/FatFs.cpp:1470-1480 | A run of sectors read directly, patched with the dirty buffer, is what the file holds there |
| FileState.DirectlyWritten | src/filesystem/fat/FatFs.cpp:1545-1556 | A run of sectors written directly, with a clean buffer brought up to date, overwrites just that part of the file |
| FileState.BufferWritten | src/filesystem/fat/FatFs.cpp:1558-1568 | Bytes put into the buffer, loaded before or fresh at the end of the file, overwrite just that part of the file |
| FileState.FileGrown | src/filesystem/fat/FatFs.cpp:1521-1537 | A cluster linked behind the chain leaves every byte of the file in place, and the buffer belongs to the same sector |
| FileState.OthersKept | src/filesystem/fat/FatFs.cpp:1436-1574 | Whatever the file was used for, any other chain is still a chain, disjoint from it, and its clusters hold the same bytes |
| FatFiles.FatFile.constructor | src/filesystem/fat/FatFs.cpp:1396-1406 | A file just opened: cursor at 0, empty buffer |
| FatFiles.FatFile.Read | src/filesystem/fat/FatFs.cpp:1436-1497 | Returns the bytes at the cursor, up to the end of the file, and moves the cursor; content and table unchanged, whatever the buffer and the window held; a failure is remembered in the file |
| FatFiles.FatFile.Write | src/filesystem/fat/FatFs.cpp:1499-1574 | A prefix of the data overwrites the content at the cursor, which makes the file longer if need be; all of it unless the volume is full or the file would reach 4 GiB; when the volume is full, the cursor stops exactly at the end of all clusters the file had or could get; afterwards the cursor is in the link its position calls for; the change flag is set exactly when the write succeeds or it was set |
| FatFiles.FatFile.Lseek | src/filesystem/fat/FatFs.cpp:1627-1700 | The cursor lands where asked, inside the file without write access, or at the end of all clusters the file had or could get; a longer file keeps all its bytes, and only that sets the change flag; its cluster is the right link of the chain from either search |
| FatFiles.FatFile.Extend | src/filesystem/fat/FatFs.cpp:1521-1537 | The link asked for, taken from the allocator at the end of the chain; all bytes stay in place; 0 only when there is no cluster to be had |
| FatFiles.FatFile.Flush | src/filesystem/fat/FatFs.cpp:1538-1541 | The buffer is clean and the file the same |
| FatFiles.FatFile.LoadSector | src/filesystem/fat/FatFs.cpp:1482-1489 | The buffer holds the sector asked for and the file is the same, also when another sector was dirty in it |
| FatFiles.FatFile.ReadRun | src/filesystem/fat/FatFs.cpp:1470-1480 | What a direct transfer delivers is what the file holds there, the dirty buffer included |
| FatFiles.FatFile.WriteRun | src/filesystem/fat/FatFs.cpp:1545-1556 | A direct transfer overwrites just that part of the file, and the buffer stays in step |
| FatFiles.FatFile.FillBuffer | src/filesystem/fat/FatFs.cpp:1558-1568 | Writing through the buffer, also into a sector at the end of the file that was not loaded, overwrites the content at the cursor |
| FatFiles.FatFile.Walk | src/filesystem/fat/FatFs.cpp:1661-1677 | Following the chain from the current link or the first ends in the link of the target position, or at the last cluster when the volume is full |
| FatFiles.FatFile.Others | src/filesystem/fat/FatFs.cpp:1436-1574 | Compared with any earlier state of the volume, every other chain and its bytes are as they were |
| OnDisk.ByteOnVolume | src/filesystem/fat/FatFs.cpp:341-345 | Where byte p of an open file lies: in cluster number p / (512 csize) of its chain, the first cluster of a volume being number 2 at the start of the data area, or in the dirty buffer |
| OnDisk.BytesOnDevice | src/filesystem/fat/FatFs.cpp:285-316 | What a volume holds is what the device holds, but for the sector of a dirty window and the second table |
| OnDisk.FileStart | src/filesystem/fat/FatFs.cpp:1396-1406 | The clusters of an open file are linked in the table from its start cluster on, and it has none without one |
| FileRuns.PerformAll | src/filesystem/fat/FatFs.cpp:1436-1700 | On a device that works, with no entry 1 in the table, every sequence of seeks, writes and reads on an open file gives the results, content and cursor of a plain sequence of bytes; they follow from the start and the operations alone, but for the bytes a seek adds, also where an operation falls short; every chain of clusters other than the file's is unchanged, and so are its bytes |
| PlainFiles.RunDetermined | src/filesystem/fat/FatFs.cpp:1436-1700 | All runs of the same operations from the same start agree: on every byte read, written or there before, the size, the cursor, the clusters, and where an operation stops |
| PlainFiles.NoneShort | src/filesystem/fat/FatFs.cpp:1499-1700 | If a cluster can still be had at the end of a run, no write or seek of it was short for want of one |
| PlainFiles.ReadBack | src/filesystem/fat/FatFs.cpp:1436-1700 | What is written, with clusters enough, is read back after seeking to where it was written |
| LongNames.PutLfn | src/filesystem/fat/FatFs.cpp:720-738 | The 32 bytes of the entry: units of the name as little-endian words at bytes 1, 3, 5, 7, 9, 14, 16, 18, 20, 22, 24, 28 and 30, a zero behind its end and 0xFFFF behind that, the number with 0x40 on the last part only, the attributes and the checksum |
| LongNames.PickLfn | src/filesystem/fat/FatFs.cpp:694-718 | Accepts exactly the entries whose units, taken from those bytes, fit and have only filling behind a zero; then stores them at the place the number gives and a terminator behind the last part; nothing else in the buffer changes |
| LongNames.CmpLfn | src/filesystem/fat/FatFs.cpp:669-692 | Accepts exactly the entries whose units, taken from those bytes up to a zero, are those of the buffer up to case |
| LongNames.RoundTrip | src/filesystem/fat/FatFs.cpp:694-738 | Reading back all stored parts of a name restores it with its terminator if and only if it has at most 253 units; exactly the part stored first carries the flag |
| LongNames.PartAccepted | src/filesystem/fat/FatFs.cpp:669-692 | Every part of a name is accepted against the same name up to case, if and only if it is not the last part of a name of 255 units |
| LongNames.PartAgrees | src/filesystem/fat/FatFs.cpp:669-692 | Conversely, an accepted part means the same units, and after the last part the buffer ends |
| LongNames.AllPartsMatch | src/filesystem/fat/FatFs.cpp:841-883 | When all parts are accepted, the buffer holds the same name up to case |
| ShortNames.GenNumname | src/filesystem/fat/FatFs.cpp:740-781 | By characters: the body up to a space or cut to make room, a tilde, the number in hexadecimal digits without leading zeros, spaces, the extension; numbers up to 5 as they are, larger ones mixed with a checksum over the long name |
| ShortNames.HashName | src/filesystem/fat/FatFs.cpp:748-759 | The checksum over the 16 bits of all units, the lowest first: a register of 16 bits is shifted, and bits 12, 5 and 0 are inverted when a bit goes out |
| ShortNames.NumberedFirst | src/filesystem/fat/FatFs.cpp:740-781 | The extension stays, and the first byte is the old one or the tilde |
| DirTable.SumSfn | src/filesystem/fat/FatFs.cpp:783-792 | For each of the eleven bytes the sum is rotated to the right by one bit and the byte added, modulo 256 |
| DirTable.PassName | src/filesystem/fat/FatFs.cpp:841-883 | A scan over the entries of a name hits its last entry exactly for the keys with the same long name, of at most 254 units, or the same short name, and otherwise awaits nothing afterwards |
| DirTable.LookupRegistered | src/filesystem/fat/FatFs.cpp:885-938 | Filling free entries with a name changes a lookup only if it matches the new name and found nothing in front of it |
| DirTable.RegisterTheorem | src/filesystem/fat/FatFs.cpp:885-938 | For every key: what registering a name, after any stretching and in reused or new entries, does to the lookup; the table stays well formed |
| DirTable.RegisteredWellFormed | src/filesystem/fat/FatFs.cpp:885-938 | Registering keeps every long entry in front of the entry it belongs to, and the unused entries at the end |
| DirTable.Stretched | src/filesystem/fat/FatFs.cpp:586-625 | Unused entries appended to a table change no lookup |
| DirTable.FoundObject | src/filesystem/fat/FatFs.cpp:841-883 | What a lookup reports delimits all entries of the object found |
| DirTable.LookupRemoved | src/filesystem/fat/FatFs.cpp:940-960 | After removing an object no lookup leads to it, and every lookup that led elsewhere still does |
| DirTable.RemovedWellFormed | src/filesystem/fat/FatFs.cpp:940-960 | Removing keeps a table well formed |
| DirTable.RemovedAgain | src/filesystem/fat/FatFs.cpp:885-960 | Registering a name and removing it again leaves every lookup as it was |
| DirTable.MissedShortName | src/filesystem/fat/FatFs.cpp:896-907 | A short name that a lookup missed is on no entry any lookup hits |
| DirState.EntryPatched | src/filesystem/fat/FatFs.cpp:885-960 | Writing one entry through the window changes that entry of the table and no other |
| DirState.DirStretched | src/filesystem/fat/FatFs.cpp:586-625 | Linking and clearing a cluster appends entries that were never used, and nothing else changes in the table |
| FatVolumes.FatVolume.ClearCluster | src/filesystem/fat/FatFs.cpp:524-549 | All sectors of the cluster become zero, and nothing else changes, whatever amount of memory there is for the transfer; after a device error the cluster may hold anything, but nothing else has changed |
| FatDirectories.FatDirectory.constructor | src/filesystem/fat/FatFs.cpp:551-556 | An open directory is a table of entries over a chain, or the fixed root area |
| FatDirectories.FatDirectory.Seek | src/filesystem/fat/FatFs.cpp:551-584 | Lands on the entry at that offset, or fails exactly when the offset is not one of an entry |
| FatDirectories.FatDirectory.Next | src/filesystem/fat/FatFs.cpp:586-625 | Lands on the following entry; at the end of the table it stops, or appends unused entries first and fails only when it cannot; after a device error all other chains and their bytes are as they were |
| FatDirectories.FatDirectory.FindEntry | src/filesystem/fat/FatFs.cpp:841-883 | Answers what a lookup in the whole table finds, and where, as stated over the bytes of its entries; the volume is unchanged |
| DirLookup.LookupExactly | src/filesystem/fat/FatFs.cpp:841-883 | In any table a lookup leads to the first entry in front of the end mark that is in use, no label, and named: by its short name, or by parts directly in front of it whose numbers count down from the one with 0x40 to 1, which all have the checksum of its short name and read as the name looked up; and tells where its long name starts |
| OnDisk.EntryOnDirectory | src/filesystem/fat/FatFs.cpp:551-584 | Where entry e of an open directory lies: along its clusters, or in the fixed root area |
| OnDisk.DirectoryStart | src/filesystem/fat/FatFs.cpp:551-566 | Start cluster 0 is the root directory: its area, or on FAT32 the chain from the cluster in the boot sector; any other is the start of a chain |
| FatDirectories.FatDirectory.Alloc | src/filesystem/fat/FatFs.cpp:627-649 | The first block of that many free entries, in a table stretched as needed; denied only when there is none and the directory cannot grow; after a device error all other chains and their bytes are as they were |
| FatDirectories.FatDirectory.StoreParts | src/filesystem/fat/FatFs.cpp:912-924 | The entries become the parts of the long name, the last part first, and no other entry changes |
| FatDirectories.FatDirectory.ChooseNumber | src/filesystem/fat/FatFs.cpp:896-907 | The short name with the least number that is on no entry; denied only when all 99 are used |
| FatDirectories.FatDirectory.Register | src/filesystem/fat/FatFs.cpp:885-938 | The table becomes the old one, stretched by unused entries, with the entries of the name in the first free block, byte by byte; a short form that lost something gets the least number that is on no entry; refused exactly for dot and reserved names, denied only without a free number or without space; the short entry has the short name and its flags, and zeros elsewhere; after a device error all other chains and their bytes are as they were |
| FatDirectories.FatDirectory.Remove | src/filesystem/fat/FatFs.cpp:940-960 | Marks exactly the entries of the object as deleted, across sectors and clusters |
| DirFootprint.OnlyDirGrown | src/filesystem/fat/FatFs.cpp:586-625 | Linking and clearing a cluster changes no link but the last of the directory and no sector outside its chain |
| DirFootprint.FailedSurvive | src/filesystem/fat/FatFs.cpp:586-625 | An allocation that fails half-way, or a new cluster that cannot be cleared, harms no chain but that of the directory |
| DirFootprint.OthersUntouched | src/filesystem/fat/FatFs.cpp:885-960 | Whatever a directory was used for, any chain other than its own is still a chain, and its clusters hold the same bytes; also for the fixed root area |
| FatDirectories.FatDirectory.Others | src/filesystem/fat/FatFs.cpp:885-960 | Compared with any earlier state of the volume, every other chain and its bytes are as they were |
| NewNames.Created | src/filesystem/fat/FatFs.cpp:885-938 | A name that was missing is found in its new entry, except one of 255 units whose short form was numbered; its entries are the first free block, and its short name is on no entry any lookup led to; for every key: what was found in front of the new entries is found there still, keys that match the name are led to it, and all others find what they found |
| NewNames.StillFound | src/filesystem/fat/FatFs.cpp:841-938 | After a name was created, every name that was found is found where it was, if it is not the new one up to case and its short form is the short name of what it found, or is not looked at |
| NewNames.MovedExactly | src/filesystem/fat/FatFs.cpp:841-938 | Of the names found before, exactly those are led elsewhere, to the new entry, that were found behind it and match its name or its short name |
| NewNames.LookupMoves | src/filesystem/fat/FatFs.cpp:841-938 | A directory with a file of the long name A~1 and the short name B: once .A is created, which gets the short name A~1, a lookup of A~1 leads to that |
| DirRuns.Create | src/filesystem/fat/FatFs.cpp:841-938 | Lookup followed by registration, on the device: afterwards the lookup of the name leads to an entry with its short name, the least numbered one that was free if it had to be numbered, every other lookup is settled as well, and all chains of clusters but that of the directory are unchanged, with their bytes, also after a device error |
| DirRuns.Delete | src/filesystem/fat/FatFs.cpp:841-960 | Lookup followed by removal, on the device: the entries are found no more, every other lookup is unchanged, and so are all chains of clusters but that of the directory, with their bytes |
| FormatPlan.TryFat32 | src/filesystem/fat/FatFs.cpp:2252-2297 | An accepted layout is sound: the table has room for all clusters and their number is in the range of FAT32 |
| FormatPlan.TryFat | src/filesystem/fat/FatFs.cpp:2262-2314 | An accepted layout is sound: the table has room for all clusters, their number is in the range of its type, and the sizes fit their fields |
| FormatPlan.Sound16 | src/filesystem/fat/FatFs.cpp:2268-2277 | Although the table size is computed in 32 bits, an accepted FAT16 layout has one that did not wrap around |
| FormatPlan.Plan | src/filesystem/fat/FatFs.cpp:2233-2318 | The retry loop ends, by a measure on the type and the fixing of the cluster size; the layout is sound, of an allowed type, has the cluster size asked for, and a table with as many sectors as its formula gives without wrapping around |
| FormatPlan.UnitsBySize | src/filesystem/fat/FatFs.cpp:2204-2205 | The cluster sizes the formatter starts with, by the number of sectors |
| FormatPlan.ChosenUnit16 | src/filesystem/fat/FatFs.cpp:2298-2313 | Left to itself, the formatter keeps the cluster size it starts with, or doubles it once, exactly when the first round does not accept |
| FormatPlan.ChosenUnit32 | src/filesystem/fat/FatFs.cpp:2292-2297 | On FAT32 it keeps it, or halves it once |
| FormatPlan.UnitsListed | src/filesystem/fat/FatFs.cpp:2218 | The cluster sizes that can be asked for: 0 and the powers of two from 512 bytes to 16 MiB |
| FormatLimits.Formats16 | src/filesystem/fat/FatFs.cpp:2250-2318 | With FAT12 and FAT16 allowed, a layout is found for every volume, or without FAT32 for those of at most 8387616 sectors |
| FormatLimits.Formats32 | src/filesystem/fat/FatFs.cpp:2250-2318 | With FAT32 alone, a layout is found exactly from 66075 sectors on |
| FormatLimits.FormatsExactly | src/filesystem/fat/FatFs.cpp:2233-2318 | The exact range of volume sizes for which the format loop finds a layout on its own |
| BootSector.Loaded | src/filesystem/fat/FatFs.cpp:2321-2353 | Every field of the boot sector reads back as the formatter chose it |
| FormatBytes.BootBytes | src/filesystem/fat/FatFs.cpp:2321-2353 | Every byte of the boot sector, by its offset |
| FormatBytes.InfoBytes | src/filesystem/fat/FatFs.cpp:2356-2366 | Every byte of the FSInfo sector |
| FormatBytes.FormattedBytes | src/filesystem/fat/FatFs.cpp:2321-2396 | Every byte of the boot sector, the table and the root directory of a formatted device, by its address |
| BootSector.MountsAsFormatted | src/filesystem/fat/FatFs.cpp:1219-1286 | The mounter accepts the boot sector of every sound layout and finds the same FAT type, number of clusters, cluster size, table base and data base |
| BootSector.MountedValid | src/filesystem/fat/FatFs.cpp:1219-1268 | A volume the mounter accepts, with one table or two, lies inside the device with tables large enough, if and only if the number of sectors in front of the data area does not wrap around in 32 bits and the data area ends inside the device; the mounter tests neither |
| MountBytes.AcceptsExactly | src/filesystem/fat/FatFs.cpp:1219-1286 | Which boot sectors the mounter accepts and which volume it finds, by the bytes of the sector and in 32-bit arithmetic |
| MountBytes.ClaimsExactly | src/filesystem/fat/FatFs.cpp:1271-1286 | The counts are taken from an FSInfo sector exactly when its bytes have all three signatures |
| BootSector.OversizedMounts | src/filesystem/fat/FatFs.cpp:1219-1268 | A boot sector with two tables of 0x80000001 sectors that the mounter accepts |
| BootSector.FsInfoRead | src/filesystem/fat/FatFs.cpp:1274-1286 | The FSInfo sector of a new volume carries the signatures and the free count |
| FatFormat.FillTable | src/filesystem/fat/FatFs.cpp:2369-2387 | A new table, whatever the size of the working buffer: the reserved entries, the root directory of FAT32, zeros |
| FatFormat.Format | src/filesystem/fat/FatFs.cpp:2201-2398 | The formatted device holds boot sector, new table and blank root directory, and a FAT32 volume copies of the boot sector in sector 6 and of FSInfo in sectors 1 and 7; errors for a bad cluster size or no memory leave it unchanged; with the choice of cluster size left to it, it succeeds exactly in the range of sizes above |
| FatFormat.FindRecord | src/filesystem/fat/FatFs.cpp:1198-1216 | By the bytes of the device: the boot record is the one in sector 0, or else, if that ends in 0x55 0xAA, the first of the four partitions with a type whose start sector, at bytes 454 + 16 i to 457 + 16 i, holds one; reported missing only when there is none |
| FatFormat.Mount | src/filesystem/fat/FatFs.cpp:1175-1293 | Mounts what the boot sector describes, computed in 32 bits, fails on a working device only when there is none or a check rejects it, and takes the free count from an FSInfo sector with all signatures; says exactly when the geometry is that of a volume inside the device |
| FatFormat.MountVolume | src/filesystem/fat/FatFs.cpp:1175-1293 | The volume object, with one table or two, of every boot sector with such a geometry: its window is clean, its tables count as mirrored exactly when they are equal |
| FatFormat.NewTableSound | src/filesystem/fat/FatFs.cpp:2369-2387 | A new table is a set of disjoint chains, that of the FAT32 root directory or none, and all other clusters are free |
| FatFormat.FormatAndMount | src/filesystem/fat/FatFs.cpp:2201-2398 | Formatting and then mounting gives the volume that was laid out: same type, sizes and bases, all clusters free but the root directory, a right free count, and the bytes of boot sector and tables as laid out |
| SchedulerState.SearchEnds | src/kernel/thread/Scheduler.cpp:204-219 | The search of the next thread ends whenever a thread is waiting and the pattern visits every level |
| SchedulerState.OnePlace | src/kernel/thread/Scheduler.cpp:84-202 | A started, unfinished thread runs, or is blocked, or is exactly once in the queue of its own priority and in no other |
| SchedulerState.StepLocated | src/kernel/thread/Scheduler.cpp:84-280 | A step the scheduler does not refuse keeps every thread in its place if and only if no thread is started that was killed before, only blocked ones are deblocked, and the priority is only changed of started, unfinished ones |
| SchedulerState.PushExactly | src/kernel/thread/Scheduler.cpp:176-188 | Pushing a thread into its queue keeps every thread in its place if and only if it was blocked |
| SchedulerState.FinishedForGood | src/kernel/thread/Scheduler.cpp:99-141 | Over every run, a thread that has exited or was killed never runs or is queued again |
| SchedulerState.DispatchNearer | src/kernel/thread/Scheduler.cpp:190-219 | A dispatch runs a queued thread or brings it strictly nearer to running |
| SchedulerState.StepNearer | src/kernel/thread/Scheduler.cpp:84-280 | A step that does not concern a queued thread runs it or does not make it wait longer, and strictly less when it dispatches |
| SchedulerState.BoundedWaiting | src/kernel/thread/Scheduler.cpp:84-219 | When the pattern visits every level within k steps, a thread at place p of its queue runs within (p + 1) * k dispatches, whatever happens to other threads |
| PriorityPattern.AccessPattern.Fill | src/lib/system/priority/AccessArrayPriorityPattern.cpp:3-27 | The array is that of taking turns, level l having l turns, from the highest level on |
| PriorityPattern.AccessPattern.GetNextPriority | src/lib/system/priority/AccessArrayPriorityPattern.cpp:29-37 | The answers follow the array, and level 0 behind its end until the 8-bit counter starts again |
| PriorityPattern.EveryLevelWithin14 | src/lib/system/priority/AccessArrayPriorityPattern.cpp:3-37 | With five levels every level is visited within 14 steps from any position, also across the wrap of the counter |
| PriorityPattern.NotWithin13 | src/lib/system/priority/AccessArrayPriorityPattern.cpp:3-37 | 13 steps are not enough |
| Scheduling.Thread.constructor | src/kernel/thread/Thread.cpp:42-65 | A priority below 5 is kept as it is, any other becomes 4 |
| Scheduling.Scheduler.GetNextThread | src/kernel/thread/Scheduler.cpp:204-219 | The head of the first queue that is not empty in the order 4 1 2 3 4 2 3 4 3 4 0, which starts again after 11 looks and after 256, taken out of it; the search ends |
| Scheduling.Scheduler.StartUp | src/kernel/thread/Scheduler.cpp:64-82 | The first dispatch; refused without change when no thread is waiting |
| Scheduling.Scheduler.Ready | src/kernel/thread/Scheduler.cpp:84-97 | A new thread goes to the end of the queue of its priority; refused without change when it was started before; keeps the scheduler valid if and only if the thread was not killed before |
| Scheduling.Scheduler.Exit | src/kernel/thread/Scheduler.cpp:99-118 | The running thread has finished for good and the next one runs; refused without change when nothing is waiting or the scheduler has not started |
| Scheduling.Scheduler.Kill | src/kernel/thread/Scheduler.cpp:120-141 | The thread, started or not, has finished for good and is in no queue; refused without change for the running one |
| Scheduling.Scheduler.Yield | src/kernel/thread/Scheduler.cpp:143-160 | The running thread goes to the end of its queue and the next one runs, if any is waiting |
| Scheduling.Scheduler.Block | src/kernel/thread/Scheduler.cpp:162-202 | The running thread is in no queue and the next one runs; refused without change when nothing is waiting, and before start-up refused after the next thread was taken out of its queue |
| Scheduling.QueuedTwice | src/kernel/thread/Scheduler.cpp:64-188 | A run from start-up after which a thread is queued twice: it is put back while it is queued |
| Scheduling.Scheduler.Deblock | src/kernel/thread/Scheduler.cpp:176-188 | The thread is at the end of the queue of its priority again; keeps the scheduler valid if and only if it was blocked |
| Scheduling.Scheduler.SetPriority | src/kernel/thread/Scheduler.cpp:261-280 | A priority below 5 is kept as it is, any other becomes 4; a thread moves to the end of the queue of that number and out of its old one, also a blocked one, which becomes ready by this; the running one keeps running; keeps the scheduler valid if and only if the thread was started and has not finished |
| Paging.AddressSpaces.constructor | src/kernel/memory/PageDirectory.cpp:42-108 | All tables of the kernel half exist from the start, so that no later change adds one; their words give the frames in a row behind the first heap, present, writable and open to all; the flat map is that of the kernel, its heap and the tables |
| Paging.BootMapped | src/kernel/memory/PageDirectory.cpp:74-95 | Which pages are mapped at the start, to which frames, wherever the memory in use ends, and that neither the memory in use nor the tables can be unmapped |
| Paging.WordBits | src/kernel/memory/Paging.h:38-60 | An entry by its bits |
| Paging.AddressSpaces.KernelShared | src/kernel/memory/PageDirectory.cpp:64-72 | All directories agree on every page of the kernel half |
| Paging.AddressSpaces.CreateTable | src/kernel/core/Management.cpp:294-309 | The word of a new table gives its frame, present and writable, and no other word changes; the mapping of no page in any directory changes |
| Paging.AddressSpaces.WalkIsFlat | src/kernel/memory/PageDirectory.cpp:246-256 | From the word of a directory to the frame it gives, and from there to the entry in the table: this comes to the entry of the flat map |
| Paging.AddressSpaces.Map | src/kernel/memory/PageDirectory.cpp:181-207 | Fails exactly for a page that is mapped; else that page is mapped in this directory, and for a kernel page in all, and nothing else changes in any directory; a missing table is entered with its frame |
| Paging.AddressSpaces.Unmap | src/kernel/memory/PageDirectory.cpp:212-243 | Clears and reports the frame of a mapped page that is not protected, in this directory, and for a kernel page in all; else changes nothing |
| Paging.AddressSpaces.Protect | src/kernel/memory/PageDirectory.cpp:285-311 | A protected page cannot be unmapped; no other page changes |
| Paging.AddressSpaces.GetPhysicalAddress | src/kernel/memory/PageDirectory.cpp:261-280 | The frame the flat map has for the page, 0 without one |
| Paging.AddressSpaces.CreateAddressSpace | src/kernel/core/Management.cpp:500-506 | The new directory has an empty user half and the kernel half of all others, which are unchanged |
| Paging.AddressSpaces.CopyKernel | src/kernel/memory/PageDirectory.cpp:115-142 | The kernel words are copied, so that the tables themselves are shared |
| Paging.AddressSpaces.MapRange | src/kernel/core/Management.cpp:283-292 | The pages from that of the start up to the end, rounded up in 32 bits, are entered, up to the first that is mapped already; kernel pages in all directories |
| Paging.AddressSpaces.UnmapRange | src/kernel/core/Management.cpp:335-380 | The pages of the range that can be unmapped are, up to the first three in a row that tell no frame; tells the frame of the last one |
| Paging.TakenMeet | src/kernel/core/Management.cpp:283-288 | These are the pages that overlap with the range, if and only if it does not end inside the last page |
| Paging.TakenHaveBytes | src/kernel/core/Management.cpp:283-288 | They are those with a byte of the range: of one that is not empty, if and only if it does not end inside the last page; of an empty one, if and only if it does or its ends do not lie inside the same page |
| Paging.RangeEntered | src/kernel/core/Management.cpp:283-292 | Mapping a range that is not empty and does not end inside the last page enters exactly the pages with a byte of it |
| Paging.NothingTaken | src/kernel/core/Management.cpp:283-288 | Mapping the last two pages but for the last byte maps nothing |
| Paging.InnerIsWhole | src/kernel/core/Management.cpp:335-352 | These are the whole pages inside the range, if and only if the range does not end inside the first page of memory or starts inside the last |
| Paging.TooManyPages | src/kernel/core/Management.cpp:335-352 | Unmapping the first hundred bytes takes all pages there are |
| Paging.EnteredAt | src/kernel/core/Management.cpp:283-292 | Which entries of a flat map a range changes |
| Paging.Flagged | src/kernel/memory/PageDirectory.cpp:181-207 | Flags that are joined to any address by a bitwise or leave its frame as it is and are set |
| PagingRuns.PerformAll | src/kernel/memory/PageDirectory.cpp:42-311 | Every sequence of mapping, unmapping and protecting pages and creating address spaces does what it does to flat maps that share nothing but a copied kernel half, with the same answers; and afterwards the walk of the hardware, from the words of a directory to frames to entries, comes to the entries of these maps |
| PagingRuns.AlwaysAgree | src/kernel/memory/PageDirectory.cpp:64-142 | After every run all address spaces agree on the kernel half |
| PagingRuns.Isolated | src/kernel/memory/PageDirectory.cpp:181-311 | After every run the entry of a page is what the operations on that page make of it, those of its own address space or, for a kernel page, of all, in their order; no other operation has a say |
| PagingRuns.StaysProtected | src/kernel/memory/PageDirectory.cpp:212-311 | A protected page is as it was after every run |
| PagingRuns.KernelStays | src/kernel/memory/PageDirectory.cpp:42-311 | From start-up on, over every run, every address space has the memory in use and the tables mapped where they were mapped first |
| BootCircles.EndsExactly | src/kernel/boot/BootCoordinator.cpp:47-76 | The layering ends if and only if nobody depends on a component twice, on one that is not registered, or in a circle |
| BootCircles.NumberedWithoutCircle | src/kernel/boot/BootCoordinator.cpp:47-76 | Where there is none of this, there are the layer numbers that the layering and the start of components take |
| BootLayers.DepthOfRun | src/kernel/boot/BootCoordinator.cpp:47-76 | A layering that ends gives layer numbers |
| BootLayers.NeverEnds | src/kernel/boot/BootCoordinator.cpp:62-70 | A duplicate dependency keeps the layering from ending: only one of the two is removed |
| BootLayers.RoundLowers | src/kernel/boot/BootCoordinator.cpp:47-76 | A round takes out exactly the components of the lowest layer, and at least one |
| BootLayers.LayerHas | src/kernel/boot/BootCoordinator.cpp:47-76 | The layers partition the components: each is in the layer of its number, once, and in no other |
| BootLayers.LayerIs | src/kernel/boot/BootCoordinator.cpp:47-76 | A layer has its components in the order in which they were registered |
| BootLayers.NoLongerWait | src/kernel/boot/BootCoordinator.cpp:47-76 | No chain of dependencies of a component is longer than its layer number |
| BootLayers.LongestWait | src/kernel/boot/BootCoordinator.cpp:47-76 | One has exactly that length |
| BootCoordination.BootCoordinator.BuildComponentLayers | src/kernel/boot/BootCoordinator.cpp:47-76 | The nested loops build exactly these layers, and keep every component |
| BootCoordination.BootCoordinator.RemoveFromAll | src/kernel/boot/BootComponent.cpp:39-41 | Removes the first occurrence of a dependency from every component |
| BootCoordination.BootCoordinator.Run | src/kernel/boot/BootCoordinator.cpp:13-35 | Starts and joins layer after layer, once |
| BootCoordination.StartedAfterDependencies | src/kernel/boot/BootCoordinator.cpp:13-35 | Every component is started after all its dependencies have been joined |
| BootCoordination.EveryoneStarted | src/kernel/boot/BootCoordinator.cpp:13-35 | Every component is started |
| BootCoordination.LayerRuns | src/kernel/boot/BootCoordinator.cpp:20-33 | The components of a layer are started in a row, all of them before the first is waited for |
| GdbPackets.Mem2Hex | src/kernel/debug/GdbServer.cpp:94-124 | Two hexadecimal digits for each byte and a terminator, nothing else in the buffer changes |
| GdbPackets.Hex2Mem | src/kernel/debug/GdbServer.cpp:127-155 | The bytes of the digits, nothing else in memory changes |
| GdbPackets.HexRoundTrip | src/kernel/debug/GdbServer.cpp:94-155 | Decoding undoes encoding on every byte string |
| GdbPackets.HexIs | src/kernel/debug/GdbServer.cpp:21-60 | The digits are 0 to 9 and a to f, and A to F are read as well |
| GdbPackets.NoHex | src/kernel/debug/GdbServer.cpp:21-60 | No other character is read as a digit |
| GdbPackets.HexedAt | src/kernel/debug/GdbServer.cpp:94-124 | The digit of the high half of a byte comes first |
| GdbPackets.UnhexedAt | src/kernel/debug/GdbServer.cpp:127-155 | Two digits of either case give the byte with these halves |
| GdbPackets.FrameIs | src/kernel/debug/GdbServer.cpp:235-267 | A frame, by its characters |
| GdbPackets.GetPacket | src/kernel/debug/GdbServer.cpp:157-233 | The result, the bytes consumed and the answers sent are those of the specified receiver, for every input, also when the line falls silent |
| GdbPackets.PutPacket | src/kernel/debug/GdbServer.cpp:235-267 | Sends `$`, the payload, `#` and two digits of the sum of its characters modulo 256 until the first `+` comes back, once for every other byte |
| GdbPackets.FrameRead | src/kernel/debug/GdbServer.cpp:157-233 | After noise, a frame of up to 398 bytes is received exactly, also with a sequence prefix |
| GdbPackets.BrokenOff | src/kernel/debug/GdbServer.cpp:183-186 | A transmission that breaks off is forgotten when the next one starts |
| GdbPackets.PacketRoundTrip | src/kernel/debug/GdbServer.cpp:157-267 | Every payload of 2 to 398 bytes is received exactly and answered with `+`, after noise and any number of transmissions whose checksum is wrong, each of them answered with `-` |
| GdbPackets.TooLong | src/kernel/debug/GdbServer.cpp:179-200 | A longer payload is dropped |
| Bitmaps.Bitmap.constructor | src/lib/bit/Bitmap.cpp:8-14 | All blocks are clear, also when their number is no multiple of the word size |
| Bitmaps.Bitmap.Reserving | src/lib/bit/Bitmap.cpp:16-24 | The bitmap has no blocks: their number is never set |
| Bitmaps.Weights | src/lib/bit/Bitmap.cpp:39-42 | The weight by which a word changes is 2^31 for the first of its blocks and 1 for the last |
| Bitmaps.Bitmap.Set | src/lib/bit/Bitmap.cpp:34-43 | Sets one flag of the sequence and no other; nothing outside the range |
| Bitmaps.Bitmap.Unset | src/lib/bit/Bitmap.cpp:45-54 | Clears one flag of the sequence and no other; nothing outside the range |
| Bitmaps.Bitmap.Check | src/lib/bit/Bitmap.cpp:56-71 | Compares one flag; false outside the range |
| Bitmaps.Bitmap.SetRange | src/lib/bit/Bitmap.cpp:73-81 | Sets the flags of the range, as far as there are blocks |
| Bitmaps.Bitmap.FindNext | src/lib/bit/Bitmap.cpp:125-133 | The first block from there on with this flag |
| Bitmaps.Bitmap.FindAndSet | src/lib/bit/Bitmap.cpp:107-123 | First fit: the least start of a run of clear blocks, which is then set, or the number of blocks, with nothing changed, exactly when there is no such run |
| Spinlock.StepExclusive | src/lib/async/Atomic.cpp:49-75 | A step from an exclusive state leads to one if and only if it is not an exchange by a thread whose read is out of date |
| Spinlock.StepCurrent | src/lib/async/Atomic.cpp:63-75 | Reads stay up to date as long as no release falls between a read and its exchange |
| Spinlock.ExclusiveExactly | src/lib/async/Spinlock.cpp:8-18 | In every interleaving of any number of threads from an exclusive state, the lock stays exclusive if and only if no exchange is one of a thread whose read is out of date |
| Spinlock.MutualExclusion | src/lib/async/Spinlock.cpp:8-18 | In every interleaving of any number of threads in which no release falls between a read and its exchange, at most one thread holds the lock |
| Spinlock.StartsExclusive | src/lib/async/Spinlock.cpp:4-6 | The lock starts in such a state |
| Spinlock.WaitsForLock | src/lib/async/Spinlock.cpp:8-10 | In every run a thread that acquires the lock waits still, or has held it |
| Spinlock.TryEnds | src/lib/async/Spinlock.cpp:12-14 | A thread that only tries holds the lock after its exchange if that was free, and is outside if not |
| Spinlock.StaleReached | src/lib/async/Spinlock.cpp:8-18 | A run in which a release falls in between |
| Spinlock.StaleBreaks | src/lib/async/Atomic.cpp:63-65 | From there on, two threads come to hold the lock |

## Left out

- FatVolumes.FatVolume.Edit: not for sectors of the second table, which no caller edits.
- FatVolumes.FatVolume.ClearCluster: after a device error the volume is not valid any more, for the window shows bytes the device does not have; what it shows outside the cluster is stated.
- FatDirectories.FatDirectory.Next: after a device error the directory itself is not stated, only all other chains.
- FatDirectories.FatDirectory.Alloc: after a device error the directory itself is not stated, only all other chains.
- FatDirectories.FatDirectory.Register: after a device error the directory itself is not stated, only all other chains.
- FatDirectories.FatDirectory.Register: the name in the buffer and its short form with its flags are taken as `create_name` leaves them; `create_name` itself is not modelled.
- FatFiles.FatFile.constructor: takes the start cluster and the size as the caller found them in the directory entry; the window may show any sector that is not one of the file or of a free cluster.
- FatFormat.Format: the sectors written behind the first one (FSInfo and the copies) may fail unnoticed, as in the code, so the free count is stated for a device that does not fail.
- BootSector.MountsAsFormatted: the mount check of a device of the largest possible size, 2^32 - 1 sectors, is stated for the fields but not as a valid volume, because sector 0xFFFFFFFF stands for no sector.
- GdbPackets.PacketRoundTrip: not for payloads of fewer than 2 bytes, for which the test of the third byte sees what an earlier packet left in the buffer.
- Scheduling.Scheduler.SetPriority: the code sets the field after the lock is released; here this is one step. All other operations are one step each as well, and a context switch is a change of the running thread.
- Paging.AddressSpaces.constructor: for memory in use of fewer than 64512 pages, for the loop over more of them does not end.
- BootCoordination.BootCoordinator.Run: starting and joining a thread are recorded as events.
- f_truncate, f_sync, sync_fs, f_open, f_mkdir, f_rename, f_unlink beyond the directory entries, labels and time stamps: easy compositions of what is modelled, or bookkeeping.
- create_name, get_fileinfo, the code page and Unicode tables: character tables and display rules.
- The mount table, the other file systems, the process scheduler, the device drivers, the loader and the user interface.
- Frame accounting, I/O mappings and the destructors of address spaces.
- The commands of the debugger stub beyond its packets.
