# A verified model of the teaching kernel

This project models the final kernel of the repository, `chapter_14_FileSystem`, and proves what its parts
promise each other. `dafny verify dfyconfig.toml` checks everything.

The code's ASSERT and PANIC both end in a spin loop with interrupts off. A call therefore either returns or
never does; in the model it answers `Halted`, or sets an out-parameter `halted`. Wherever a call can stop,
its contract says exactly when, or at least names the shortage that is to blame.

**Primitives.** `Bitmap.dfy` is the byte-packed bitmap, read as a sequence of bits, with first fit as an
independent definition. `List.dfy` is the doubly linked list between two sentinels. `Bytes.dfy` has the
little-endian words, `BitSector.dfy` bitmaps as they lie on the disk, `Debug.dfy` the stopped kernel.

**Disk and file system.** `Ide.dfy` is the disk as an array of sectors with the chunk loops of the driver.
`Inode.dfy` has the 76-byte records that straddle sectors. `Volume.dfy` is a mounted partition: both bitmaps
in memory, the sectors, and as ghost state the current inodes and the slot that owns each block.
`Partition.Valid` ties them together: a bit is set exactly when its block is owned or does not exist, each
owned block is in exactly one slot of one inode, an inode bit is set exactly for an allocated inode, every
record and every indirect table reads back from the disk, and so do the inode bitmap and the block bitmap, but
for the bits of indirect tables, which the code does not sync. All calls that change the file system keep it,
`Format.dfy` shows that a fresh partition has it, and `Remount.dfy` what a later mount finds.
`OpenInode.dfy` and `Cache.dfy` are the open inodes.
`FileData.dfy`, `File.dfy`, `FileWrite.dfy` and `FileRead.dfy` refine a plain byte sequence, `FileRuns.dfy`
is about whole runs of writes and reads. `DirData.dfy`, `Dir.dfy` and `DirRead.dfy` have the 24-byte entries
and the calls on them, `NameMap.dfy` reads a directory as a finite map from names. `Release.dfy`,
`Names.dfy`, `MakeDir.dfy` and `RoundTrip.dfy` create and remove files and directories. Their contracts say
what they leave alone: all other inodes and all sectors in their slots (`OthersKept`), so that every other file
reads the same and every other directory shows the same.

**Paths and the tree of directories.** `Path.dfy` splits and joins paths, `Tree.dfy` has trees of directories
as such, `TreeStep.dfy` what a call does to one. `DiskTree.dfy` ties the two worlds together: `TreeOf` is the
tree that the directories on a partition show, `InUse` says that it is one, and that the open-inode list is
right. `NameBuffer.dfy` says what parsing makes of the 16 bytes for a name, `Search.dfy` is search_file on
sectors, `Cwd.dfy` sys_getcwd and sys_chdir, `Canonical.dfy` how long a path sys_getcwd can find. `Calls.dfy`
shows that what file_create, sys_mkdir and sys_unlink do on the disk are the steps of the tree; `Create.dfy`,
`Mkdir.dfy`, `Unlink.dfy`, `Rmdir.dfy` and `OpenDir.dfy` have the whole calls, from the path on.
`FirstMount.dfy` is where every run starts, `Session.dfy` has whole runs of calls on a partition, and
`Mishap.dfy` three runs that end badly.

**Memory.** `Paging.dfy` has 32-bit page tables that are reached through their own last directory entry,
after section 4.3 of the Intel SDM, volume 3A. `Vm.dfy` has the page pools and the allocation of pages, on
a finite map from pages to frames; `PageMap.dfy` shows that page_table_add and page_table_pte_remove are
updates of that map. `Arena.dfy` has the accounts of the seven block classes, `Heap.dfy` sys_malloc and
sys_free with the bytes of memory, so that a free list's links are seen not to touch live blocks.

**Threads and devices.** `Sched.dfy` has the scheduler, as a class and as functions on its state. `Lock.dfy`
has the semaphores and re-entrant locks, as steps that any number of threads interleave on top of that
scheduler, `LockRun.dfy` tells from the actions of a run what they amount to. `IoQueue.dfy` has the ring buffer and its putters and getters, `Handshake.dfy` a disk command and
its completion interrupt.

Where the source changes fields and buffers in place, the model is a class with those fields, and each method
is proved against a function or predicate of the old and the new state. A protocol of several threads is a
step function on one state. Sections with interrupts off are single steps.

Where the code falls short of its intention, the code is modelled and the exact condition is proved:

- The run search of bitmap_scan probes one bit behind the map (`ScanStaysInside`, `ScanLeavesMap`).
- The largest file is announced as 71680 bytes; a write that reaches exactly that size passes the first test
  and stops at the ASSERT behind it, so 71679 is the largest. Reads stop 512 bytes earlier (`Write`, `Read`).
- A write of no bytes to an empty file leaves position 4294967295, and the next read stops (`Write`, `Read`).
- inode_sync keeps 8 bits of the inode number (`SyncThenOpen`), and the table that is announced for 4096
  inodes has room for 512 (`Locate`).
- A file name of 16 characters is let through and runs into the inode number (`EntryRoundTrip`).
- The loop that clears the last bits of a fresh block bitmap clears one too many (`HandsOutOwnBlocks`), and
  with fewer than 8 blocks it also clears the root's.
- sys_rmdir of a path that ends in `/.` removes the inode of an empty directory and leaves its entry in the
  parent: delete_dir_entry looks for the entry in the directory itself, and its answer is not looked at. The
  directories still form a tree exactly when the last name is not `.` (`SysRmdir`, `KeepsUnlessByDot`);
  sys_mkdir("/a") and sys_rmdir("/a/.") do it (`MkdirRmdirDot`), and the next inode has the number of the old
  entry (`NumberTwice`).
- An inode that is removed while somebody has its directory open stays in the list of open inodes; the list is
  right afterwards exactly when nobody had it open (`InodeRelease`, `SysRmdir`). file_create pushes without a
  search, so the same number is then in the list twice (`MkdirOpenRmdirCreate`).
- search_file and path_depth_count parse each name into 16 bytes on the stack without looking at its length. A
  name of more than 16 bytes overruns them, and one of exactly 16 that is looked up has no zero behind it. A
  slash and 300 letters are such a path (`LongName`). `BufferOf` is what becomes of the buffer and `OverrunBy`
  the exact condition; SearchFile and PathDepthCount report an overrun exactly when there is one, and the calls
  on paths ask that there is none, since nothing can be said about them afterwards.
- sys_rmdir does not look at who works in the directory. A working directory stays one exactly when it is not
  the one removed (`SysRmdir`); after sys_mkdir("/a"), sys_chdir("/a") and sys_rmdir("/a") the process works in
  a directory that is gone (`MkdirChdirRmdir`), and sys_getcwd, which opens its inode, runs into the ASSERT of
  get_parent_dir_inode_nr.
- sys_unlink does not compare depths as sys_open does: with names left over behind a file's, as in "/f/x", it
  unlinks the file (`SysUnlink`).
- The ASSERT in sys_getcwd lets a path through that fills the buffer; the zero then lands behind it. For the
  root two bytes are written whatever the size is (`GetCwd`).
- The sums in the guards of file_write and file_read have 32 bits and are right exactly when they fit
  (`GuardTellsSize`, `GuardCutsCount`).
- A path of two or more slashes only makes search_file answer what its stack held (`SearchFile`), and
  path_depth_count tests a byte it never wrote (`PathDepthCount`).
- The bit of an indirect table reaches the disk only with a later block whose bit is in the same sector
  (`TableThenBlock`). A partition is mounted as it was left if and only if all those bits did (`Remount`).
- A thread that waited for the lock of a ring buffer does not look at the buffer again before it waits in the
  slot (`WaitsForAReason`); so a getter can sleep beside a byte until the next put (`SleepsBesideAByte`).
- Memory from 258 megabytes on is lost, since the count of pages has 16 bits (`PoolsHalved`).
- mfree_page reads the table entry of the page behind the last one (`MfreePage`, `Free`).
- sys_malloc of more than 1024 bytes writes its header through a null pointer when no run of pages is free
  (`Malloc`).
- Entries 0 and 768 of the kernel's directory name one table, so a mapping in the first four megabytes of the
  kernel appears twice (`LowMirror`); `Mapped` says so in general terms, and `WhoShares` when it happens.
- The comment in ide_read speaks of 255 sectors for one command; the code uses 256, and the count register's
  0 stands for that.

## Model

| member | source | states |
|---|---|---|
| Bitmaps.Bitmap.Set | chapter_14_FileSystem/lib/bitmap.c:69-79 | changes that one bit of the map, and of the memory behind it, and no other; proved from the packed bytes |
| Bitmaps.Bitmap.Scan | chapter_14_FileSystem/lib/bitmap.c:22-65 | stops exactly when every bit of the map is set; else answers the least start of a run of `count` clear bits in the map plus the one bit behind it, or -1 when there is none |
| Bitmaps.Bitmap.RunFrom | chapter_14_FileSystem/lib/bitmap.c:45-64 | the counting loop finds the first run, whatever bits lie between |
| Bitmaps.FirstRunUnique | chapter_14_FileSystem/lib/bitmap.c:45-64 | first fit determines the answer: least run, or -1 if and only if no run exists |
| Bitmaps.ScanStaysInside | chapter_14_FileSystem/lib/bitmap.c:45-63 | the probed extra bit does no harm exactly when it is set, or the map has a run anyway, or the last count-1 bits of the map are not all clear |
| Bitmaps.ScanLeavesMap | chapter_14_FileSystem/lib/bitmap.c:45-63 | a one-byte map for which the answer leaves the map |
| Lists.List.InsertBefore | chapter_14_FileSystem/lib/list.c:16-29 | the element comes right before the given one; neighbours point at each other in both directions |
| Lists.List.Remove | chapter_14_FileSystem/lib/list.c:44-52 | the sequence of elements loses this one and keeps its order |
| Lists.List.Pop | chapter_14_FileSystem/lib/list.c:55-60 | takes the first element off |
| Lists.List.Find | chapter_14_FileSystem/lib/list.c:63-73 | true if and only if the element is in the list |
| Lists.List.Len | chapter_14_FileSystem/lib/list.c:95-106 | the number of elements |
| Ide.Disk.Read | chapter_14_FileSystem/device/c13a_ide.c:292-344 | the chunks, whose counts pass through 8 bits, tile the range: the buffer equals one whole-range copy |
| Ide.Disk.Write | chapter_14_FileSystem/device/c13a_ide.c:348-389 | the range holds the buffer and every other sector keeps its bytes |
| Handshake.NextSound | chapter_14_FileSystem/device/c13a_ide.c:103-121 | every step of threads, device and handler keeps the handshake, and the handler's sema_up never finds the semaphore raised |
| Handshake.OwnInterrupt | chapter_14_FileSystem/device/c13a_ide.c:317-327 | a thread leaves its wait by the interrupt of its own command, and nothing is left over |
| Handshake.WakeIsDelivered | chapter_14_FileSystem/device/c13a_ide.c:103-121 | once the interrupt has been handled the sleeper is off the waiters and will test again |
| Handshake.RunsSound | chapter_14_FileSystem/device/c13a_ide.c:292-389 | the same for every run of any number of threads |
| Handshake.CountsAreTold | chapter_14_FileSystem/device/c13a_ide.c:292-389 | over every run the commands issued and the interrupts handled are as many as the events say |
| Handshake.NeverStuck | chapter_14_FileSystem/device/c13a_ide.c:292-389 | while a thread has the channel, it, the device or the handler can go on |
| Handshake.WholeCommand | chapter_14_FileSystem/device/c13a_ide.c:292-389 | a command and its interrupt leave the channel as it was, whether the interrupt comes before or after the thread sleeps |
| Bytes.WordsRoundTrip | chapter_14_FileSystem/fs/c14c_file.c:457-467 | a table of 32-bit words reads back from its little-endian bytes |
| Bytes.LowByteFirst | chapter_14_FileSystem/fs/c14c_file.c:457-467 | the low byte of a word comes first, the high byte last |
| Inodes.DecodeEncode | chapter_14_FileSystem/fs/c14c_inode.c:56-97 | the persistent fields survive the 76-byte record |
| Inodes.RecordBytes | chapter_14_FileSystem/fs/c14c_inode.c:66-74 | number, size and blocks are at their places in the record; open count, write flag and list links go out as zero |
| Inodes.Locate | chapter_14_FileSystem/fs/c14c_inode.c:22-51 | the position of record `id` is byte 76*id of the table; two sectors exactly when it runs over the end of one; 512 records fit |
| Inodes.PutRecord | chapter_14_FileSystem/fs/c14c_inode.c:76-96 | exactly the 76 bytes of the record change, also when it straddles two sectors |
| Inodes.Sync | chapter_14_FileSystem/fs/c14c_inode.c:56-97 | writes the record of the inode number modulo 256, which is what the 8-bit variable keeps |
| Inodes.Load | chapter_14_FileSystem/fs/c14c_inode.c:122-157 | a fresh inode with the fields the record holds and an open count of one, for every number the ASSERT of inode_locate lets through |
| Inodes.TableAfterSync | chapter_14_FileSystem/fs/c14c_inode.c:56-97 | after a sync every other record of the table reads as before |
| Inodes.SyncThenOpen | chapter_14_FileSystem/fs/c14c_inode.c:56-158 | sync then open gives the fields back; for a number of 256 or more the record of another inode is overwritten and its own stays |
| Caches.Cache.Open | chapter_14_FileSystem/fs/c14c_inode.c:104-158 | each id is in the list at most once; the count of this id goes up by one; the inode shows the current fields |
| Caches.Cache.Close | chapter_14_FileSystem/fs/c14c_inode.c:162-180 | the count goes down by one and the last close takes the inode off the list |
| Caches.OpenThenClose | chapter_14_FileSystem/fs/c14c_inode.c:104-180 | a close undoes an open |
| Caches.Cache.Reclose | chapter_14_FileSystem/fs/c14c_inode.c:104-180 | a close after an open restores list and counts, also when the inode has been released in between |
| Caches.Cache.CloseBehind | chapter_14_FileSystem/fs/c14c_dir.c:118-127 | so it does when file_create has pushed another inode in front |
| Caches.PushedTwice | chapter_14_FileSystem/fs/c14c_file.c:195-199 | a push without a search puts a number that is listed already on the list twice |
| Volumes.AttachAgrees | chapter_14_FileSystem/fs/c14c_file.c:79-88 | a bit that was clear, set for one slot of one inode, keeps: bit set if and only if exactly one slot owns the block |
| Volumes.DetachAgrees | chapter_14_FileSystem/fs/c14c_inode.c:285-301 | clearing the bit of a block that leaves its slot keeps it too |
| Volumes.Partition.AllocBlock | chapter_14_FileSystem/fs/c14c_file.c:79-88 | first-fit block, owned by nobody before; stops exactly when no bit is clear |
| Volumes.Partition.SyncBlockMap | chapter_14_FileSystem/fs/c14c_file.c:92-115 | the sector of the bitmap that holds the bit becomes the packed form of the map in memory; nothing else on the disk changes |
| Volumes.Partition.AllocSynced | chapter_14_FileSystem/fs/c14c_file.c:340-343 | a new block for one slot; the block bitmap on the disk goes on to agree with the one in memory, but for bits of indirect tables; stops exactly when no bit is clear |
| Volumes.Partition.FreeSynced | chapter_14_FileSystem/fs/c14c_inode.c:285-301 | a block leaves its slot, and the bitmap on the disk follows |
| Volumes.Partition.SyncInodeMap | chapter_14_FileSystem/fs/c14c_file.c:92-115 | the inode bitmap on the disk is the one in memory |
| Files.CollectDirect | chapter_14_FileSystem/fs/c14c_file.c:380-410 | direct blocks suffice: the missing ones are allocated, owned and listed; stops exactly when too few are free |
| Files.CollectCrossing | chapter_14_FileSystem/fs/c14c_file.c:411-458 | the direct blocks run out: one block more for the table, which then reads back from the disk |
| Files.CollectIndirect | chapter_14_FileSystem/fs/c14c_file.c:459-485 | the table exists already and grows |
| FileData.ContentsHold | chapter_14_FileSystem/fs/c14c_file.c:288-532 | reading through direct blocks and table, cut to inode_size, is the byte sequence the blocks hold |
| FileData.KeptReads | chapter_14_FileSystem/fs/c14a_fs.c:466-964 | after a call that leaves a file alone, the file reads the same, byte for byte |
| FileWrites.WriteChunks | chapter_14_FileSystem/fs/c14c_file.c:488-526 | the chunk loop puts `buf` behind the old bytes, the first chunk into the partly filled block |
| FileWrites.Write | chapter_14_FileSystem/fs/c14c_file.c:288-532 | contents become old contents followed by `buf`; -1 exactly above 71680 bytes; stops exactly at 71680 bytes or when the free blocks are fewer than the case needs; takes exactly that many; all other inodes and their blocks are untouched; records, tables and both bitmaps on the disk are as in memory, but for bits of indirect tables (`Partition.Valid`) |
| FileWrites.OthersReadTheSame | chapter_14_FileSystem/fs/c14c_file.c:288-532 | the contents of every other file are as before |
| FileWrites.GuardTellsSize | chapter_14_FileSystem/fs/c14c_file.c:292-296 | the 32-bit sum in the guard refuses what is too long if and only if it does not overflow |
| FileReads.Read | chapter_14_FileSystem/fs/c14c_file.c:543-659 | answers contents[pos .. min(pos+count, size)] and advances by that much; -1 exactly at the end; stops exactly when the stretch ends at byte 71168 or behind, or the position is behind the end |
| FileReads.GuardCutsCount | chapter_14_FileSystem/fs/c14c_file.c:549-555 | the 32-bit sum in the guard sees that too much is asked for if and only if it does not overflow |
| FileRuns.WriteAll | chapter_14_FileSystem/fs/c14c_file.c:288-532 | any sequence of writes to an empty file leaves their concatenation; stops exactly when the partition has fewer blocks than one write of all the bytes needs |
| FileRuns.NeededTwice | chapter_14_FileSystem/fs/c14c_file.c:349-486 | two writes take together the blocks one write of both would |
| FileRuns.ReadAll | chapter_14_FileSystem/fs/c14c_file.c:543-659 | reads in pieces of any sizes give the prefix of the contents of the total size |
| FileRuns.WriteThenRead | chapter_14_FileSystem/fs/c14c_file.c:288-659 | whatever is written in whatever pieces comes back in whatever pieces |
| DirData.EntryRoundTrip | chapter_14_FileSystem/fs/c14c_dir.c:132-140 | an entry reads back as written if and only if its name has fewer than 16 characters or the low byte of the inode number is zero |
| DirData.EntryBytes | chapter_14_FileSystem/fs/c14c_dir.c:132-140 | name, number and type are at their places in the 24 bytes, and no other byte of the sector changes |
| Dirs.SearchDirEntry | chapter_14_FileSystem/fs/c14c_dir.c:35-111 | found if and only if some live entry has the name, and then that entry |
| Dirs.SyncDirEntry | chapter_14_FileSystem/fs/c14c_dir.c:146-262 | the entry goes to the first unused place, in a new block if that place is in a missing one; stops exactly when that block is needed and none is free; everything else the directory shows, and the rest of the disk, stays |
| Dirs.DeleteDirEntry | chapter_14_FileSystem/fs/c14c_dir.c:279-411 | the entry of that inode number goes; its block goes with it exactly when it was alone there and the block is not the first; no ASSERT fails |
| DirData.EntryAdded | chapter_14_FileSystem/fs/c14c_dir.c:146-262 | the directory stays in order: dots in front, size counts the entries, names and numbers unique, no empty block but the first |
| DirData.EntryRemoved | chapter_14_FileSystem/fs/c14c_dir.c:279-411 | the same after a removal |
| DirData.KeptShows | chapter_14_FileSystem/fs/c14a_fs.c:466-964 | after a call that leaves a directory alone, it shows the same entries |
| DirData.EmptyBySize | chapter_14_FileSystem/fs/c14c_dir.c:484-516 | a size of two entries means only the dots are there and no other block is left, so dir_remove's ASSERT holds |
| NameMaps.Lookup | chapter_14_FileSystem/fs/c14c_dir.c:35-111 | search_dir_entry looks the name up in the finite map the directory stands for |
| NameMaps.AddedToMap | chapter_14_FileSystem/fs/c14c_dir.c:146-262 | sync_dir_entry is an update of that map |
| NameMaps.RemovedFromMap | chapter_14_FileSystem/fs/c14c_dir.c:279-411 | delete_dir_entry takes one name out of it |
| NameMaps.SizeCounts | chapter_14_FileSystem/fs/c14c_dir.c:484-489 | inode_size is the entry size times the number of names |
| NameMaps.FitForTree | chapter_14_FileSystem/fs/c14c_dir.c:419-516 | the map has `.`, `..`, proper names and one name for each inode number, as path search needs |
| DirReads.DirRead | chapter_14_FileSystem/fs/c14c_dir.c:419-477 | the n-th live entry in block order, NULL exactly behind the last; the ASSERT on the position holds |
| DirReads.ListAll | chapter_14_FileSystem/fs/c14c_dir.c:419-477 | reading until NULL lists every live entry exactly once |
| DirReads.OrderIsListing | chapter_14_FileSystem/fs/c14c_dir.c:419-477 | the order names each live place once and no other, block by block and in each from the front |
| Release.InodeRelease | chapter_14_FileSystem/fs/c14c_inode.c:255-319 | all blocks, the table and the inode bit are given back and the record is zeroed; the partition stays consistent on disk and in memory; no other inode or data changes; the open-inode list is right afterwards if and only if nobody had the inode open |
| Names.AllocInode | chapter_14_FileSystem/fs/c14c_file.c:68-75 | the least clear inode bit; stops exactly without one; the new inode owns nothing; the partition stays consistent exactly for numbers below 256 |
| Names.FileCreate | chapter_14_FileSystem/fs/c14c_file.c:120-217 | a new inode and its entry, on the disk, at the front of the open-inode list, in a partition that stays consistent; every other inode and its data stay; stops exactly when the entry needs a block and none is free |
| Names.RemoveEntryAndInode | chapter_14_FileSystem/fs/c14a_fs.c:703-717 | entry and inode go together, all blocks are free again, the directory stays in order, every other inode and its data stay; whether there was an entry is not looked at |
| RoundTrips.MapsDetermined | chapter_14_FileSystem/fs/c14c_file.c:92-115 | both bitmaps and the owner map follow from the inodes alone |
| RoundTrips.PlusThenMinus | chapter_14_FileSystem/fs/c14c_dir.c:146-411 | adding an entry and removing it gives every inode its old value back, whether or not a block was new |
| RoundTrips.CreateWriteUnlink | chapter_14_FileSystem/fs/c14a_fs.c:466-718 | create, write anything, unlink: both bitmaps, owners, inodes and the open-inode list are as at the start, and nobody else's data was touched; stops exactly when blocks are too few or the file would have exactly 71680 bytes |
| MakeDirs.MakeDir | chapter_14_FileSystem/fs/c14a_fs.c:763-839 | a directory with `.` and `..` in a block of its own, an entry in its parent, both inodes on the disk; every other inode and its data stay; stops exactly with fewer free blocks than one and the one the entry may need |
| MakeDirs.RemoveDir | chapter_14_FileSystem/fs/c14c_dir.c:484-516 | removes exactly the directories whose size counts two entries, also where the parent does not list them; the ASSERT on further blocks holds |
| MakeDirs.MakeThenRemoveDir | chapter_14_FileSystem/fs/c14a_fs.c:727-964 | mkdir then rmdir restores both bitmaps, owners, inodes and the open-inode list, and touches nobody else; stops exactly when mkdir does |
| Formats.BlockMapBits | chapter_14_FileSystem/fs/c14a_fs.c:103-123 | after memset and the clearing loop a bit is set exactly at 0 (when the map has 8 bits or more) and above the bit length |
| Formats.HandsOutOwnBlocks | chapter_14_FileSystem/fs/c14a_fs.c:46-123 | the bitmap offers only blocks of the partition if and only if its length fills whole sectors or the second size is smaller than the first guess |
| Formats.OffersOneTooMany | chapter_14_FileSystem/fs/c14a_fs.c:116-121 | a partition of 8192 sectors whose bitmap offers the sector behind it |
| BitSectors.BitReadsBack | chapter_14_FileSystem/fs/c14a_fs.c:123-318 | a bitmap bit written by the format is the bit the mount reads |
| BitSectors.SameBytes | chapter_14_FileSystem/fs/c14c_file.c:92-115 | what a sync writes are the bytes that lib/bitmap.c keeps in memory |
| Formats.LaidOutside | chapter_14_FileSystem/fs/c14a_fs.c:81-173 | sectors outside the metadata and the root's first block keep their bytes |
| Formats.SuperLayout | chapter_14_FileSystem/fs/c14a_fs.c:32-75 | the words of the super block: its magic, and the parts of the partition one behind the other |
| Formats.Format | chapter_14_FileSystem/fs/c14a_fs.c:30-178 | super block, bitmaps, inode table with the root's record alone, and root directory are on the disk; stops exactly when no block is left for the bitmap to describe |
| Formats.FindOrFormat | chapter_14_FileSystem/fs/c14a_fs.c:215-236 | filesys_init leaves a partition with the magic alone and formats any other |
| Formats.Mount | chapter_14_FileSystem/fs/c14a_fs.c:273-332 | a freshly formatted partition satisfies every invariant of the file system and its root shows `.` and `..` |
| FirstMounts.MountRoot | chapter_14_FileSystem/fs/c14a_fs.c:250-332 | and with its root open it shows the tree of one empty directory, where every run starts |
| Remounts.Remount | chapter_14_FileSystem/fs/c14a_fs.c:215-332 | a partition that was in use is not formatted again, and the mount finds its inode bitmap and its block bitmap but for bits of indirect tables; all invariants hold if and only if those bits are on the disk |
| Remounts.Restart | chapter_14_FileSystem/fs/c14a_fs.c:215-332 | and then the whole tree is there again, with only the root open |
| Remounts.NoTables | chapter_14_FileSystem/fs/c14c_file.c:419-432 | with no file beyond 12 blocks the condition is met |
| Remounts.TableThenBlock | chapter_14_FileSystem/fs/c14c_file.c:411-446 | the bit of a new indirect table reaches the disk exactly when the next block's bit is in the same sector |
| Paths.PathParse | chapter_14_FileSystem/fs/c14a_fs.c:341-356 | the first name behind any number of slashes goes to the front of the buffer, and what follows it is left; the buffer is overrun exactly by a name that is longer |
| NameBuffers.OverrunBy | chapter_14_FileSystem/fs/c14a_fs.c:403-434 | the 16 bytes are overrun if and only if the first parsed name that leaves no room for its zero has more than 16 bytes, and are without a zero if and only if it has exactly 16 and is looked up |
| NameBuffers.KeptIsShort | chapter_14_FileSystem/fs/c14a_fs.c:403-434 | otherwise every name that was looked up has fewer than 16 bytes |
| NameBuffers.LongName | chapter_14_FileSystem/fs/c14a_fs.c:348-351 | a path of one name keeps the buffer if and only if the name has fewer than 16 bytes; a name of 300 overruns it |
| Paths.ComponentsOfJoined | chapter_14_FileSystem/fs/c14a_fs.c:341-356 | splitting a path undoes joining its names |
| Paths.Unreverse | chapter_14_FileSystem/fs/c14a_fs.c:1083-1093 | the strrchr loop puts the pieces of a path written back to front in order |
| WorkingDirs.ClimbUp | chapter_14_FileSystem/fs/c14a_fs.c:1066-1081 | the walk along `..`, read from sectors, ends at the root and collects names that lead back down to where it started; every name is found, and no ASSERT fails |
| WorkingDirs.GetParent | chapter_14_FileSystem/fs/c14a_fs.c:973-985 | the second entry of the first block is `..`: it names the parent, and neither ASSERT fails |
| WorkingDirs.GetChildName | chapter_14_FileSystem/fs/c14a_fs.c:990-1035 | the scan over all blocks finds a name exactly when some entry has the number; an unused entry never matches |
| WorkingDirs.OwnName | chapter_14_FileSystem/fs/c14a_fs.c:990-1035 | the name found for a directory's number in its parent is the one that leads to it |
| Trees.OnlyChildMatches | chapter_14_FileSystem/fs/c14a_fs.c:990-1035 | the entry found by inode number is the child's own, never `.` or `..` |
| Trees.LeadsUnique | chapter_14_FileSystem/fs/c14a_fs.c:1042-1096 | a directory has one list of names, so the answer of sys_getcwd is determined |
| WorkingDirs.GetCwd | chapter_14_FileSystem/fs/c14a_fs.c:1042-1096 | the joined names from the root down to the working directory, with the zero behind them, or the root's two bytes whatever the size is; stops exactly when the names are longer than the buffer; below the root one byte behind the buffer is written exactly when they fill it; the 512 bytes for the reversed path suffice for every path that fits them (`PathFits`) |
| Canonicals.NoShorter | chapter_14_FileSystem/fs/c14a_fs.c:1042-1096 | no path that leads to a directory, through `.` and `..` or not, is shorter than the one sys_getcwd puts together |
| Canonicals.StepFits | chapter_14_FileSystem/fs/c14a_fs.c:466-964 | so the paths sys_getcwd finds stay below 512 bytes: creating, unlinking and removing keep that, and sys_mkdir does because the path it was called with is below 512 |
| Trees.LeadsResolves | chapter_14_FileSystem/fs/c14a_fs.c:384-459 | going down by the names that lead to a directory arrives there |
| Searches.PathDepthCount | chapter_14_FileSystem/fs/c14a_fs.c:360-378 | overruns its 16 bytes exactly when some name is longer; else the number of names in the path, or without a name what an unwritten byte says |
| Searches.SearchLoop | chapter_14_FileSystem/fs/c14a_fs.c:403-458 | what becomes of the name buffer, and if it is kept: one directory for each name, opened and closed on the way, with parent and searched part; the ASSERT on the searched length holds |
| DiskTrees.LookUp | chapter_14_FileSystem/fs/c14c_dir.c:35-111 | search_dir_entry on the blocks looks the name up in that tree |
| Searches.SearchFile | chapter_14_FileSystem/fs/c14a_fs.c:384-459 | what becomes of the name buffer, and if it is kept: name-by-name lookup from the root in the tree the partition shows, also for the three root spellings; stops exactly on relative or overlong paths; a path of several slashes answers whatever the stack held; the parent's handle is the only one left open |
| Searches.DepthTells | chapter_14_FileSystem/fs/c14a_fs.c:483-500 | the searched part has as many names as the path exactly when all names but the last lead to the reported parent |
| Searches.CwdResolves | chapter_14_FileSystem/fs/c14a_fs.c:1042-1096 | looking up what sys_getcwd answers ends at the working directory |
| WorkingDirs.Process.ChDir | chapter_14_FileSystem/fs/c14a_fs.c:1101-1124 | with the name buffer kept, moves exactly to directories that the lookup finds |
| WorkingDirs.Process.ThereAndBack | chapter_14_FileSystem/fs/c14a_fs.c:1042-1124 | sys_chdir to the answer of sys_getcwd leaves the process where it was, for every partition in order and every directory whose path fits, as all do that sys_mkdir made (`SysMkdir`, `RunCalls`) |
| OpenDirs.SysOpenDir | chapter_14_FileSystem/fs/c14a_fs.c:863-890 | sys_opendir answers a handle exactly when the path leads to a directory; the handle's inode is then open once more and nothing else is; `/` alone gives the root's own handle |
| Caches.Cache.OpenNext | chapter_14_FileSystem/fs/c14a_fs.c:884-888 | opening the directory found before the parent is closed leaves exactly that one opened since, also when they are the same |
| TreeSteps.CreateKeeps | chapter_14_FileSystem/fs/c14c_file.c:120-217 | creating a file keeps the directories a tree |
| TreeSteps.MkdirKeeps | chapter_14_FileSystem/fs/c14a_fs.c:727-853 | making a directory does |
| TreeSteps.UnlinkKeeps | chapter_14_FileSystem/fs/c14a_fs.c:662-718 | unlinking a file does |
| TreeSteps.RmdirKeeps | chapter_14_FileSystem/fs/c14a_fs.c:927-964 | removing an empty directory under its name does: nothing else points to it |
| TreeSteps.DotBreaks | chapter_14_FileSystem/fs/c14c_dir.c:492-516 | removing it through its own `.` leaves no tree, whatever the depths |
| TreeSteps.KeepsUnlessByDot | chapter_14_FileSystem/fs/c14a_fs.c:466-964 | a call that goes through leaves a tree if and only if it is not a sys_rmdir through `.` |
| TreeSteps.RunsKeepTree | chapter_14_FileSystem/fs/c14a_fs.c:662-964 | in every history of these steps from the tree of an empty root the directories form a tree up to the first sys_rmdir through `.`, and none right after it; runs of calls on a partition give such histories (`Sessions.TraceHistory`) |
| TreeSteps.DotPath | chapter_14_FileSystem/fs/c14a_fs.c:384-459 | for "/a/." the search ends at a, and its parent part too |
| TreeSteps.ThroughDot | chapter_14_FileSystem/fs/c14a_fs.c:727-964 | sys_mkdir("/a"), sys_rmdir("/a/.") is such a run: the root lists a directory that is gone |
| TreeSteps.NumberTwice | chapter_14_FileSystem/fs/c14a_fs.c:727-964 | sys_mkdir("/b") then takes the number again, and two entries of the root have it |
| Calls.CreateFile | chapter_14_FileSystem/fs/c14c_file.c:120-217 | file_create on the disk is the step Create of the tree, and keeps the partition in order |
| Calls.MakeDirectory | chapter_14_FileSystem/fs/c14a_fs.c:763-839 | the second half of sys_mkdir on the disk is the step Mkdir |
| Calls.UnlinkFile | chapter_14_FileSystem/fs/c14a_fs.c:703-717 | the end of sys_unlink on the disk is the step Unlink |
| Creates.SysCreate | chapter_14_FileSystem/fs/c14a_fs.c:466-541 | sys_open with O_CREAT creates a file exactly when the path does not end in a slash and leads to a directory in which its last name is missing, and that is the step Create, with the first free inode number and as many blocks less as the entry needs; else nothing changes; stops exactly on a refused path or without the block it needs; for paths that keep the name buffers |
| Creates.NameAppended | chapter_14_FileSystem/fs/c14a_fs.c:529-532 | the name behind the last slash of the path is the last one path_parse would find |
| Mkdirs.SysMkdir | chapter_14_FileSystem/fs/c14a_fs.c:727-853 | sys_mkdir makes a directory exactly when the path leads to one in which its last name is missing, and that is the step Mkdir, with the first free inode number, one block less and the one the entry may need; else nothing changes; exact stop; all paths sys_getcwd finds stay below 512 bytes; for paths that keep the name buffers |
| Mkdirs.DepthsTell | chapter_14_FileSystem/fs/c14a_fs.c:746-760 | the two depths are equal exactly when only the last name is missing, and the searched part then ends in it |
| Unlinks.SysUnlink | chapter_14_FileSystem/fs/c14a_fs.c:662-718 | sys_unlink answers 0 exactly when the search ends at a file that is not in the file table, names left over or not, and that is the step Unlink; else nothing changes; stops exactly on a refused path or at the root; for paths that keep the name buffer |
| Rmdirs.SysRmdir | chapter_14_FileSystem/fs/c14a_fs.c:927-964 | sys_rmdir answers 0 exactly when the path leads to an empty directory, and that is the step Rmdir; the directories then form a tree if and only if the last name is not `.`, and the open-inode list is right if and only if nobody had the directory open; a working directory stays one if and only if it is not the one removed; else nothing changes; stops exactly on a refused path or at the root; for paths that keep the name buffer |
| Rmdirs.EntryIsBelow | chapter_14_FileSystem/fs/c14c_dir.c:492-516 | an entry found for a directory's number in its parent is never the parent or the parent's parent |
| Sessions.RunCalls | chapter_14_FileSystem/fs/c14a_fs.c:466-964 | any run of sys_open with O_CREAT and sys_close, sys_mkdir, sys_unlink and sys_rmdir: each answers 0 exactly when it can be done and then does its step, else -1 and the tree stays; after each the directories form a tree whose paths fit, and only the root is open; the run ends early exactly in a call that stops the kernel, in a removal by `.` that goes through, or when more than 250 inodes are in use and one more is to be made |
| Sessions.RunFromFormat | chapter_14_FileSystem/fs/c14a_fs.c:250-964 | the same from a formatted partition, whose tree is an empty root |
| Sessions.TraceHistory | chapter_14_FileSystem/fs/c14a_fs.c:466-964 | the calls of such a run that answer 0 are, in order, the steps of a history of the tree |
| Sessions.PlaceLeft | chapter_14_FileSystem/fs/c14c_dir.c:146-262 | with at most 250 inodes in use every directory has a place left, since no two entries but dots share a number |
| Sessions.ComeBack | chapter_14_FileSystem/fs/c14a_fs.c:1042-1124 | in every directory after such a run 512 bytes hold the answer of sys_getcwd, and sys_chdir to it leads back |
| Mishaps.MkdirRmdirDot | chapter_14_FileSystem/fs/c14a_fs.c:727-964 | from an empty root, sys_mkdir("/a") and sys_rmdir("/a/.") on the disk both answer 0 and leave no tree |
| Mishaps.MkdirChdirRmdir | chapter_14_FileSystem/fs/c14a_fs.c:727-1124 | sys_mkdir("/a"), sys_chdir("/a"), sys_rmdir("/a"): the file system is in order and the working directory is no directory, nor an inode |
| Mishaps.MkdirOpenRmdir | chapter_14_FileSystem/fs/c14a_fs.c:727-964 | sys_mkdir("/a"), sys_opendir("/a"), sys_rmdir("/a"): the list of open inodes has one that does not exist |
| Mishaps.MkdirOpenRmdirCreate | chapter_14_FileSystem/fs/c14c_file.c:195-199 | sys_open("/f", O_CREAT) then gives two different inodes in the list one number |
| Paging.PtePtrWalk | chapter_14_FileSystem/kernel/c12f_memory.c:243-252 | the walk of pte_ptr(v) ends at the table entry the walk of v uses, and faults without a table |
| Paging.PdePtrWalk | chapter_14_FileSystem/kernel/c12f_memory.c:256-261 | the walk of pde_ptr(v) ends at the directory entry the walk of v uses |
| Paging.ClearedWalk | chapter_14_FileSystem/kernel/c12f_memory.c:309-314 | every word memset clears through the self-map is a word of the new table |
| Paging.Machine.PageTableAdd | chapter_14_FileSystem/kernel/c12f_memory.c:279-319 | v translates to the frame, open to writing and to user code on both levels; in every address space exactly the pages that share this table entry change; stops exactly when v was mapped; lists every word that may change |
| Paging.Machine.PteRemove | chapter_14_FileSystem/kernel/c12f_memory.c:611-621 | v faults, and exactly the pages that share its entry do; the others keep what they allow, and no other word changes |
| Paging.AbsentKeeps | chapter_14_FileSystem/kernel/c12f_memory.c:611-621 | the entry loses its present bit and nothing else |
| Paging.Machine.AddrV2p | chapter_14_FileSystem/kernel/c12f_memory.c:440-447 | the physical address the hardware walk gives, offset included |
| Paging.WhoShares | chapter_14_FileSystem/kernel/c12f_memory.c:279-319 | two pages share an entry if and only if their directory entries name the same table and their middle bits agree |
| Paging.LowMirror | chapter_14_FileSystem/kernel/c12f_memory.c:279-319 | what is mapped in the first four megabytes of the kernel also appears at the bottom of the address space |
| Paging.Machine.CreatePageDir | chapter_14_FileSystem/user/c12e_process.c:113-140 | an empty user half, the kernel's entries, a self-map; the kernel's half allows what it did; all directories stay self-mapped and share the kernel's half |
| PageMaps.MapPage | chapter_14_FileSystem/kernel/c12f_memory.c:279-319 | where no two directory entries name one table, page_table_add is an update of the map from pages to frames that Vm works on, and stops exactly when the page is in it |
| PageMaps.UnmapPage | chapter_14_FileSystem/kernel/c12f_memory.c:611-621 | page_table_pte_remove takes exactly one page out of it |
| PageMaps.AddUpdates | chapter_14_FileSystem/kernel/c12f_memory.c:279-319 | what PageTableAdd promises of every walk amounts to that update |
| PageMaps.RemoveUpdates | chapter_14_FileSystem/kernel/c12f_memory.c:611-621 | what PteRemove promises amounts to the removal |
| Paging.KernelTranslates | chapter_14_FileSystem/user/c12e_process.c:113-140 | all address spaces translate the kernel's range alike |
| Paging.StaysShared | chapter_14_FileSystem/kernel/c12f_memory.c:291-319 | no later page_table_add makes them differ, because the kernel's directory entries are all there |
| Paging.BootIsTidy | chapter_6/c05c_loader.asm:331-361 | the loader's directory satisfies the invariants every run starts from, and each of its entries is open to writing and to user code |
| Paging.BootTables | chapter_6/c05c_loader.asm:331-361 | its tables lie one behind the other from 0x101000 on, and entries 0 and 768 name one |
| Paging.BootGrants | chapter_6/c05c_loader.asm:331-361 | the first megabyte is mapped to itself, at the bottom and at the start of the kernel's range, open to writing and to user code |
| Vm.PoolsFit | chapter_14_FileSystem/kernel/c12f_memory.c:93-138 | the two pools never overlap, and lie inside the memory if and only if it has two megabytes |
| Vm.PoolsHalved | chapter_14_FileSystem/kernel/c12f_memory.c:93-124 | the free pages are halved and each pool loses fewer than eight frames; nothing else is lost exactly below 258 megabytes |
| Vm.MemPoolInit | chapter_14_FileSystem/kernel/c12f_memory.c:93-180 | two empty pools and the kernel's pages agree from the start, with the sizes of the layout |
| Vm.Pool.Palloc | chapter_14_FileSystem/kernel/c12f_memory.c:266-275 | the least free frame of the pool; stops exactly when none is free |
| Vm.ContainedExactly | chapter_14_FileSystem/lib/bitmap.c:45-63 | the search of vaddr_get, which probes the bit behind the page bitmap, finds the first run of the bitmap itself if and only if that bit is set, the bitmap has a run, or it does not end in n-1 clear bits |
| Vm.AddressSpace.VaddrGet | chapter_14_FileSystem/kernel/c12f_memory.c:212-239 | a first-fit run of pages is marked; NULL without a run; where the probed bit behind the bitmap does no harm (`Contained`) |
| Vm.AddressSpace.MallocPage | chapter_14_FileSystem/kernel/c12f_memory.c:327-361 | a first-fit run of pages, each with a frame nobody used, from the right pool; bitmaps, table and frames stay in agreement; exact conditions for NULL and for stopping, where the bit behind the bitmap does no harm |
| Vm.AddressSpace.MfreePage | chapter_14_FileSystem/kernel/c12f_memory.c:646-704 | the pages and frames are free again; faults exactly when the page behind the run has no table |
| Vm.MallocThenFree | chapter_14_FileSystem/kernel/c12f_memory.c:327-704 | restores bitmaps and mapping but for the frames of new page tables; goes through exactly when allocation and release do |
| Arenas.LiveApart | chapter_14_FileSystem/kernel/c12f_memory.c:476-580 | live allocations never overlap and lie behind the header inside their arena's pages |
| Arenas.Popped | chapter_14_FileSystem/kernel/c12f_memory.c:570-575 | a block off the list and the count down by one keep the arena's accounts |
| Arenas.Pushed | chapter_14_FileSystem/kernel/c12f_memory.c:743-747 | a block back on the list and the count up by one do |
| Arenas.Dropped | chapter_14_FileSystem/kernel/c12f_memory.c:747-757 | taking all blocks of a free arena off the list does |
| Heaps.Heap.Malloc | chapter_14_FileSystem/kernel/c12f_memory.c:476-580 | a block no live one overlaps, large enough, zeroed; every other live byte stays; which block it is: the first of the smallest class that fits, of a new arena in the first free page, or the first run of pages; NULL, the address behind a null arena, and stopping each under an exact condition, where for a large block the bit behind the page bitmap does no harm |
| Heaps.Heap.Free | chapter_14_FileSystem/kernel/c12f_memory.c:710-762 | the block is the last of its list, or its arena and pages are gone and the list keeps its order; every other live byte stays, no ASSERT fails; stops exactly when an arena is released in front of a page without a table |
| Heaps.MallocThenFree | chapter_14_FileSystem/kernel/c12f_memory.c:476-762 | live blocks, arenas, mapping and all other live bytes are as before, and so are the free lists, but that the first block of a list is now its last; goes through under an exact condition |
| Heaps.Heap.DrainList | chapter_14_FileSystem/kernel/c12f_memory.c:749-756 | every block of the arena is on the list, as the ASSERT demands, and leaves it |
| Heaps.FreeApart | chapter_14_FileSystem/kernel/c12f_memory.c:458-580 | the list links of a free block never touch a live block |
| Sched.Scheduler.Schedule | chapter_14_FileSystem/thread/c14c_thread.c:206-246 | whenever at most the current thread was running: no ASSERT fails, the first in line gets the processor, a thread whose time is up goes to the end with a full slice, idle is woken on an empty list, nobody else changes, and the invariant holds |
| Sched.Scheduler.ThreadUnblock | chapter_14_FileSystem/thread/c14c_thread.c:292-311 | the list is the woken thread followed by the old list, and nobody else changes; stops exactly when the thread was not stopped |
| Sched.WokenRuns | chapter_14_FileSystem/thread/c14c_thread.c:206-311 | the next schedule gives the woken thread the processor |
| Sched.Scheduler.ThreadBlock | chapter_14_FileSystem/thread/c14c_thread.c:273-287 | no ASSERT fails; the current thread has its new status, and the next in line runs |
| Sched.Scheduler.ThreadYield | chapter_14_FileSystem/thread/c14c_thread.c:342-353 | no ASSERT fails; the current thread goes to the end of the list and the first of the list runs |
| Sched.Scheduler.ThreadStart | chapter_14_FileSystem/thread/c14c_thread.c:141-170 | a new thread goes to the end of the ready list; no ASSERT fails and the invariant holds |
| Sched.Scheduler.IntrTimerHandler | chapter_14_FileSystem/device/c13c_timer.c:58-75 | a tick takes one off the running thread or, with none left, schedules; ticks never exceed the priority |
| Sched.RescheduleOk | chapter_14_FileSystem/thread/c14c_thread.c:206-246 | schedule never stops, also with an empty list, and keeps the invariant |
| Sched.TakesNext | chapter_14_FileSystem/thread/c14c_thread.c:206-246 | schedule takes the line - those who were ready, in order, then the current thread if it only ran out of time, idle when there is nobody - and moves its first thread to the processor |
| Sched.RoundRobin | chapter_14_FileSystem/device/c13c_timer.c:58-75 | while nobody is unblocked, the thread at index k runs before the ticks of the running thread and of the k threads ahead, plus one each, are used up |
| Locks.StepGood | chapter_14_FileSystem/thread/c10b_sync.c:23-109 | no ASSERT of the locks or the scheduler fails, and every step of any thread keeps the invariant |
| Locks.RunsAreGood | chapter_14_FileSystem/thread/c10b_sync.c:23-109 | so it holds in every state of every run, with any number of threads and locks |
| Locks.MutualExclusion | chapter_14_FileSystem/thread/c10b_sync.c:23-109 | at most one thread is between its sema_down and its sema_up |
| Locks.HolderTracksDepth | chapter_14_FileSystem/thread/c10b_sync.c:75-109 | holder and repeat count are the nesting depth of that thread, which `DepthIsOwed` tells from the actions |
| Locks.NoLostWakeup | chapter_14_FileSystem/thread/c10b_sync.c:23-71 | a free semaphore with waiters has a woken thread that has yet to test it |
| Locks.OneList | chapter_14_FileSystem/thread/c10b_sync.c:23-71 | a thread's tag is on the ready list or on the waiters of one lock, never on two lists |
| LockRuns.DepthIsOwed | chapter_14_FileSystem/thread/c10b_sync.c:75-109 | over every run the nesting depth of a thread is the acquires it has completed less the releases it has begun, counted on the actions |
| LockRuns.CountIsOwed | chapter_14_FileSystem/thread/c10b_sync.c:75-109 | so holder and repeat count follow from the actions, and a free lock is owed no release |
| LockRuns.WokenInOrder | chapter_14_FileSystem/thread/c10b_sync.c:23-71 | over every run the waiters of a semaphore are woken in the order in which they went to sleep |
| LockRuns.StepSwitches | chapter_14_FileSystem/thread/c10b_sync.c:23-71 | what each action does to the ready list and the running thread |
| LockRuns.AcquireFree | chapter_14_FileSystem/thread/c10b_sync.c:75-90 | a free lock is taken in four steps when nobody comes between |
| LockRuns.AcquireTaken | chapter_14_FileSystem/thread/c10b_sync.c:75-90 | at a taken lock the thread comes last among the waiters and the next in line runs |
| LockRuns.NestedSteps | chapter_14_FileSystem/thread/c10b_sync.c:84-97 | nested acquires and releases move the count by one and nothing else |
| LockRuns.ReleaseLast | chapter_14_FileSystem/thread/c10b_sync.c:93-109 | the last release frees the lock and puts its first waiter in front of the ready list |
| LockRuns.AcquireThenRelease | chapter_14_FileSystem/thread/c10b_sync.c:75-109 | together they leave locks and threads as they were |
| IoQueue.Ring.Put | chapter_14_FileSystem/device/c10f_ioqueue.c:79-100 | the byte goes behind the ones in the ring |
| IoQueue.Ring.Take | chapter_14_FileSystem/device/c10f_ioqueue.c:51-76 | the first byte comes out |
| IoQueue.Ring.Full | chapter_14_FileSystem/device/c10f_ioqueue.c:21-25 | full exactly with 63 bytes |
| IoQueue.TakeOk | chapter_14_FileSystem/device/c10f_ioqueue.c:35-100 | no ASSERT in ioq_wait, wakeup or the lock fails, whatever thread moves next |
| IoQueue.SlotHoldsLock | chapter_14_FileSystem/device/c10f_ioqueue.c:35-48 | a filled slot names a blocked thread that has the lock, and the other slot is empty |
| IoQueue.BytesInOrder | chapter_14_FileSystem/device/c10f_ioqueue.c:51-100 | over every interleaving the bytes got are a prefix of the bytes accepted, and the buffer holds the rest, at most 63 |
| IoQueue.AcceptedAreThePuts | chapter_14_FileSystem/device/c10f_ioqueue.c:51-100 | the bytes accepted are those of the calls of ioq_putchar that have ended, in that order, and one byte was delivered for each ioq_getchar that has |
| IoQueue.GotWhatWasPut | chapter_14_FileSystem/device/c10f_ioqueue.c:51-100 | so the bytes put are the bytes got followed by those in the buffer |
| IoQueue.EndsAndWakes | chapter_14_FileSystem/device/c10f_ioqueue.c:66-100 | a put that ends leaves the consumer's slot empty and its thread awake, and a get the same for the producer |
| IoQueue.WhereItEnds | chapter_14_FileSystem/device/c10f_ioqueue.c:51-100 | a call ends at once exactly when there is room or a byte and it does not come from the lock; else where its thread waits |
| IoQueue.WaitsForAReason | chapter_14_FileSystem/device/c10f_ioqueue.c:35-92 | every wait in a slot has a reason after every move but one of a thread that comes from the lock and finds what it wants |
| IoQueue.SleepsBesideAByte | chapter_14_FileSystem/device/c10f_ioqueue.c:51-77 | two getters and two puts after which a getter sleeps beside a byte |
| IoQueue.NobodyForgotten | chapter_14_FileSystem/device/c10f_ioqueue.c:51-100 | over every run nobody waits for a free lock without being woken, and its waiters are woken in their order |
| IoQueue.TakeOnRing | chapter_14_FileSystem/device/c10f_ioqueue.c:51-100 | the same moves on the ring: its tests decide them, and a get answers the byte that is delivered |

## Left out

- Boot code but for the page directory it builds, interrupt and timer chip set-up, segments, inline assembly, switch_to: effects of hardware; a switch changes the current thread.
- Port input and output, busy_wait and its timing, disk identification: the disk is an array of sectors and a completion event.
- partition_scan and the choice of a partition: they walk untrusted disk chains and hold no invariant.
- Console, print, format and keyboard tables: output and case tables.
- Roll-back after failed allocation: the code has only parts of it; a bitmap without a clear bit stops the scan before most of it can run.
- Failure of the scratch buffers that file system calls take from the heap: each is taken to be there, and two sectors long.
- Directories that need an indirect table: search reads one, the calls that add and remove do not load it; here a directory has 12 blocks and a full one is a precondition (`HasRoom`).
- Inode numbers of 256 and more: inode_sync destroys another record then, so calls that allocate an inode ask for a free number below that (`IdLeft`).
- The flag write_deny and the file tables with their descriptors: file_close clears the flag for any closer, so it excludes nobody.
- sys_open's flags other than O_CREAT and the file table it fills, sys_stat, sys_lseek beyond the start: case distinctions without an invariant; to sys_unlink the file table is a set of numbers.
- File system and heap calls are taken one at a time. The code does not see to that: inode_open gives the processor away between its search and its push while it reads the disk, so two threads can push one number; and page_table_add takes the frame of a new table from the kernel's pool under the lock of the user's pool only.
- What vaddr_get does to the memory behind its bitmap: the map is a sequence of bits with one bit behind it, and a run that reaches into that bit is excluded (`Contained`); `ScanLeavesMap` has one.
- The volume's bitmaps in memory are sequences of bits; `SameBytes` ties their packed form to the bytes of lib/bitmap.c. Ownership of blocks is stated on the bitmap in memory, since the bit of an indirect table may lag on the disk.
- What happens after a name has run over its buffer or has no zero behind it: it depends on the rest of the stack (`BufferOf`, `OverrunBy`).
- Paths are sequences without a bound. The code copies them only to searched_path, whose ASSERT holds (`SearchLoop`), and to the reversed path of sys_getcwd (`PathFits`).
- Paths of two or more slashes only are a precondition away from sys_open, sys_mkdir, sys_unlink, sys_rmdir and sys_opendir: what the stack held would be opened as an inode number (`SearchFile` has the answer).
- After a removal through `.`, or of a directory that somebody has open, calls are not modelled further: the tree or the list is no longer what the other contracts ask for.
- The lists inside the scheduler, the locks and the heap are sequences; `List.dfy` has the links, and `Heap.dfy` the bytes they occupy.
- The lock around the disk channel in `Handshake.dfy` is taken or free; `Lock.dfy` has what lies behind that. The single interrupt for each command is the device's part.
- The translation look-aside buffer: every store is seen by the next walk.
- Process start, user stacks and loading of programs.
- MallocPage: on a stop nothing is said about what was already allocated, since nothing runs any more.
- RoundRobin: counts timer interrupts while no thread is unblocked, because thread_unblock puts the woken thread in front of all others and no bound holds then.
- Write: asks that the size and the count have a sum of 32 bits; `GuardTellsSize` says that the guard fails beyond.
- Read: asks that the position and the count have one; `GuardCutsCount` says that the guard fails beyond.
- SysCreate: a place in the parent and a free number are preconditions in the case that something is created (`Makeable`), and name buffers that are kept are one in any case; `SysMkdir`, `SysUnlink`, `SysRmdir`, `SysOpenDir` and `ChDir` ask for the latter too.
- SysMkdir: the same preconditions.
- RunCalls: the paths consist of names shorter than 16 bytes, and each file is closed again before the next call, so that no call removes what is open.
