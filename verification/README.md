# OS/161 in Dafny

A model of the parts of the OS/161 teaching kernel and its C library that hold state or do
arithmetic that is easy to get wrong, with proofs about them. `dafny verify dfyconfig.toml` checks
the whole project.

- **SFS, the simple filesystem.** `Codec`, `Bitmap` and `Uio` are the on-disk encodings, the free
  map and the data-transfer cursor. `SfsModel`, `SfsSteps` and `SfsTruncate` hold the ownership
  invariant on values: a bit of the free map is set exactly when its block is reserved or held by
  one slot of one inode. `SfsVolume` is the mounted volume with its methods, `SfsBytes` and
  `SfsFiles` say what a file contains, `SfsEntries` and `SfsDirectory` make the root directory a
  finite map with link counts, `Mksfs` formats, mounts and syncs. `SfsAbstract` is
  the filesystem as its users see it: names, files with every byte stored for them, and open
  references. `SfsSession` proves that every run from mksfs on is a run of it, with truncation to
  any length, that a run never fails for lack of space while its operations need no more blocks than
  there are, and that sync and a new mount bring everything back.
- **The two allocators.** `MallocModel` and `Malloc` are the user heap: boundary tags in raw memory
  refine a list of blocks, which refines a set of live blocks. `KHeapModel` and `KHeap` are the
  kernel's subpage allocator: the pageref table with its linked lists, the in-use bits and the free
  lists threaded through the pages. `MallocClient` and `KHeapClient` are about whole runs of a program
  that allocates, stores and frees in any order.
- **Concurrency on one CPU.** `Queue`, `PtrArray`, `ThreadModel` and `Threads` are the run queue, the
  sleepers and the thread switch. `Synch` is semaphores, locks and condition variables as a state
  machine whose steps are the sections with interrupts off, cut where `thread_sleep` hands the CPU
  over, and `SynchOps` is their code over the thread lists, every call of which is a run of that
  machine. `Stoplight` is the intersection protocol for any number of cars, and `StoplightSync` has the
  cars as threads of the kernel.
- **Formatting and numbers.** `Format` says what printf prints and what atoi reads, and `FormatRead` what
  that is in terms of the value of a string of digits; `Printf` has the printing machine, the bounded
  buffer and the parser. `Random` is the additive feedback generator,
  `Pseudorand` the kernel's Park and Miller generator, with the proof that its period is 2^31 - 2 from
  every seed.
- **Address spaces.** `VmModel` and `Vm` are the region translation, the TLB as a cache of it, the
  bump allocator of physical memory, loading and copying.

Where the source updates state in place the model is a class whose methods are proved against
functions on values, and the invariants are proved about those functions. A branch in which the
source panics, asserts or exits is a branch with `assert false` in the model, so it is proved
unreachable, unless a contract says when it is reached.

Things the code does that its documentation, or the reader, would not expect:

- `sfs_truncate` leaves the bytes it cuts off in the block it keeps, and compares indirect slots with
  a strict `<` (`sfs_vnode.c:1111`, `1124`), so bytes can come back when the file grows again.
  `SfsFiles.StaleByteReturns` has such files and `SfsAbstract.StaleRun` a run of five operations that
  reads such a byte. `SfsFiles.TruncatedContent` and `SfsBytes.WrittenContent`
  say exactly when a truncate or a write acts as on a plain byte sequence, and
  `SfsAbstract.CutThenExtend` when cutting and extending does; `SfsSession.PlainSession` has the runs
  in which everything does.
- A write that starts past the end of the file raises the size to its offset even when it fails or has
  nothing to write (`sfs_vnode.c:499-506`): `SfsVolume.Volume.Io`.
- A file that is unlinked while it is open keeps its inode and blocks for good when the volume is synced
  and mounted again before it is closed: `SfsSession.Reboot` says that the new volume satisfies all
  invariants if and only if there is no such file.
- `free` exits with "out of range" for the pointer of a zero-byte block at the top of the heap
  (`malloc.c:474-476`). `Malloc.FreeOfEmptyBlock` is such a program; `Malloc.Heap.Free` and
  `Malloc.FreeExits` say exactly when it happens, and `MallocClient.Run` that nothing else can end a
  program that frees what it was given.
- `%-03d` pads on the right with zeros, so `7` prints as `700`: `Format.TrailingZeros`.
  `Format.PrintParse` says exactly when a printed number is read back.
- The comment on `setstate` says that it may be given the current state array. The code reads the stored
  rear position before it saves the current one, so this does not keep the stream of the array in
  `Random.SameStateFails`, whose next number is 30 instead of 35; `Random.SetSameState` says exactly when it does.
- `cv_signal` and `cv_broadcast` release the lock: `Synch.SignalReleases`.
- `ram_stealmem` multiplies in 32 bits, so a request that wraps takes less memory than it says:
  `VmModel.StealIff`, with `VmModel.StealWraps`. `kmalloc` rounds up to pages in 32 bits in the same
  way: `KHeapModel.PagesCover`, with `KHeapModel.PagesWrap`.
- `uiomove` looks at `uio_resid` only to decide whether to go on, and not at how much it moves:
  `Uio.Uio.Move` says exactly when it stays within `uio_resid`, and `Uio.MovesBeyond` is a move that
  does not.

## Model

| member | source | states |
|---|---|---|
| Codec.WordRoundTrip | kern/include/kern/sfs.h:45-52 | a 32-bit word survives being written as four big-endian bytes and read back |
| Codec.WordsRoundTrip | kern/include/kern/sfs.h:45-52 | a block of 128 words survives being written and read back |
| Codec.InodeRoundTrip | kern/include/kern/sfs.h:45-52 | an inode written to its block and read back is the same inode |
| Codec.WordLayout | kern/include/kern/sfs.h:45-52 | word i of a block is the big-endian number in its bytes from 4 * i on, read or written |
| Codec.InodeLayout | kern/include/kern/sfs.h:45-52 | in its block an inode has the size at byte 0, the type at 4, the link count at 6, the direct blocks from 8 on and the indirect block at 68, all big-endian |
| Codec.ZeroBlockInode | kern/fs/sfs/sfs_vnode.c:28-35 | a cleared block reads as an inode of the invalid type, of size 0, with no blocks |
| Bitmap.SomeClear | kern/lib/bitmap.c:72-94 | a byte that is not all ones has a clear bit, so the inner search of bitmap_alloc always ends at one |
| Bitmap.FoundClear | kern/lib/bitmap.c:72-94 | the bit the search stops at is a real one and not padding of the last byte |
| Bitmap.MaskDoubles | kern/lib/bitmap.c:96-105 | the bits of a byte are counted from the least significant one |
| Bitmap.Bitmap.constructor | kern/lib/bitmap.c:30-64 | the new map denotes the empty set, with the padding bits set |
| Bitmap.Bitmap.Alloc | kern/lib/bitmap.c:72-94 | adds the least number not in the set, or fails exactly when the set is full |
| Bitmap.Bitmap.Mark | kern/lib/bitmap.c:107-118 | adds exactly the given number to the set |
| Bitmap.Bitmap.Unmark | kern/lib/bitmap.c:120-131 | removes exactly the given number, which must be in the set |
| Bitmap.Bitmap.IsSet | kern/lib/bitmap.c:134-142 | answers membership in the set |
| Uio.SpliceTwice | kern/userprog/uio.c:11-82 | two adjacent transfers are one transfer of the joined bytes |
| Uio.MovesBeyond | kern/userprog/uio.c:11-82 | asked for 4 bytes with 1 byte left in uio_resid and 4 in the region, the code moves 4 bytes and uio_resid wraps around |
| Uio.Uio.constructor | kern/userprog/uio.c:113-123 | a cursor over a kernel buffer with the given length, offset and direction |
| Uio.Uio.Move | kern/userprog/uio.c:11-82 | moves bytes in the direction of the uio, changes no other byte on either side, and advances offset and resid by the same amount; the amount is min(n, uio_resid) if and only if n is within uio_resid, or uio_resid is 0 or the whole region |
| Uio.Uio.MoveZeros | kern/userprog/uio.c:84-108 | stores min(n, uio_resid) zero bytes through the cursor and advances it |
| SfsModel.AddRef | kern/fs/sfs/sfs_vnode.c:115-261 | pointing a slot at a fresh block keeps ownership exact |
| SfsModel.DropRefs | kern/fs/sfs/sfs_vnode.c:1063-1157 | clearing any set of slots together with the bits of the blocks they held keeps ownership exact |
| SfsModel.GrowInv | kern/fs/sfs/sfs_vnode.c:115-261 | allocating a data, indirect or indirect-slot block keeps the ownership invariant |
| SfsModel.GrowSameFiles | kern/fs/sfs/sfs_vnode.c:115-261 | allocation changes what no file contains, because a fresh block is zero and a missing block reads as zero |
| SfsSteps.WriteData | kern/fs/sfs/sfs_vnode.c:277-347 | writing the disk block behind block fb of file i changes that block of that file and nothing else |
| SfsSteps.KeepPointers | kern/fs/sfs/sfs_vnode.c:38-51 | ownership and every file's blocks survive a change of inode fields that leaves the pointers alone |
| SfsSteps.SavedWrite | kern/fs/sfs/sfs_fs.c:126-133 | writing a block of an inode or file leaves the free map on disk alone, so a map that is not marked dirty needs no writing |
| SfsSteps.SyncedInv | kern/fs/sfs/sfs_vnode.c:38-51 | writing a dirty inode back keeps the invariant and every file |
| SfsSteps.DroppedInv | kern/fs/sfs/sfs_vnode.c:856-924 | dropping a clean vnode keeps the invariant: the disk copy takes over |
| SfsTruncate.NewInodeInv | kern/fs/sfs/sfs_vnode.c:761-783 | a new inode on a fresh block keeps the ownership invariant |
| SfsTruncate.FreedInodeInv | kern/fs/sfs/sfs_vnode.c:856-924 | freeing an inode without blocks keeps the ownership invariant |
| SfsTruncate.FreedBlocksOwned | kern/fs/sfs/sfs_vnode.c:1063-1157 | the freed blocks are exactly those held by a slot that truncation clears |
| SfsTruncate.TruncatedInv | kern/fs/sfs/sfs_vnode.c:1063-1157 | truncation keeps ownership exact: each dropped block is freed once and nothing else is |
| SfsTruncate.KeptIff | kern/fs/sfs/sfs_vnode.c:1080-1133 | in bytes: a direct block is kept exactly when it begins below the new length, an indirect one exactly when the block before it does |
| SfsTruncate.TruncatedSlots | kern/fs/sfs/sfs_vnode.c:1093-1148 | every slot of the truncated file is cleared or keeps its block by that rule; the indirect block goes exactly when the length is at most 141 blocks and every slot that is kept is empty |
| SfsTruncate.TruncatedUsed | kern/fs/sfs/sfs_vnode.c:1093-1148 | the free map loses exactly the blocks of the slots that are cleared |
| SfsTruncate.TruncatedBlock | kern/fs/sfs/sfs_vnode.c:1063-1157 | every file keeps every block, except that the truncated file loses those that `SfsTruncate.KeptIff` says |
| SfsTruncate.DirectStillUsed | kern/fs/sfs/sfs_vnode.c:1093-1100 | when the loop frees a direct block its bit is still set, so bitmap_unmark's assertion holds |
| SfsTruncate.IndStillUsed | kern/fs/sfs/sfs_vnode.c:1122-1133 | the same for each entry of the indirect block |
| SfsTruncate.IndirectStillUsed | kern/fs/sfs/sfs_vnode.c:1135-1140 | the same for the indirect block itself |
| SfsBytes.WrittenContent | kern/fs/sfs/sfs_vnode.c:417-513 | a write is the overlay of a plain byte sequence, zero-filling the gap, if and only if the gap it jumps over holds no stale bytes |
| SfsBytes.BlockStored | kern/fs/sfs/sfs_vnode.c:277-347 | replacing part of one block stores those bytes in the file at that offset |
| SfsFiles.TruncatedContent | kern/fs/sfs/sfs_vnode.c:1063-1157 | the content after truncation is the old content cut, or extended with zeros, if and only if no stale bytes lie between the old end and the new one |
| SfsFiles.TruncatedTail | kern/fs/sfs/sfs_vnode.c:1150-1151 | no stale byte is left exactly when no nonzero byte that is cut off lies in a block that stays |
| SfsFiles.StaleByteReturns | kern/fs/sfs/sfs_vnode.c:1150-1151 | every file whose second byte is not zero shows that byte again after it is cut to one byte and extended to two |
| SfsEntries.EntryRoundTrip | kern/include/kern/sfs.h:57-60 | a directory entry written and read back has the same inode number and name |
| SfsEntries.EntryLayout | kern/include/kern/sfs.h:57-60 | an entry is written as a big-endian inode number, the name, and zeros up to 64 bytes |
| SfsEntries.DecodeLayout | kern/fs/sfs/sfs_vnode.c:639-641 | any 64 bytes are read as that inode number and the name up to the first zero byte, or the last byte but one |
| SfsEntries.WriteSlot | kern/fs/sfs/sfs_vnode.c:556-584 | overlaying an encoded entry at slot k changes slot k of the directory and no other |
| SfsEntries.InsertEntry | kern/fs/sfs/sfs_vnode.c:664-703 | filling a free slot with a new name is an update of the name map and keeps names unique |
| SfsEntries.RemoveEntry | kern/fs/sfs/sfs_vnode.c:708-720 | clearing a slot deletes exactly its name from the map |
| SfsEntries.MapSize | kern/fs/sfs/sfs_vnode.c:614-703 | a directory has as many names as slots exactly when no slot is free |
| SfsEntries.LinksUpdate | kern/fs/sfs/sfs_vnode.c:1243-1264 | how the number of entries that name an inode changes when one slot changes |
| SfsVolume.Volume.Balloc | kern/fs/sfs/sfs_vnode.c:60-78 | gives a block that was free, marks it and clears it, or reports ENOSPC exactly when the map is full; the out-of-range panic is unreachable |
| SfsVolume.Volume.Bfree | kern/fs/sfs/sfs_vnode.c:83-89 | removes exactly the given block from the used set |
| SfsVolume.Volume.Bused | kern/fs/sfs/sfs_vnode.c:94-103 | answers whether a block is in the used set |
| SfsVolume.Volume.BmapDirect | kern/fs/sfs/sfs_vnode.c:137-169 | the block behind a direct slot, allocated on demand, with the invariant and all files kept; it fills that slot or none |
| SfsVolume.Volume.BmapIndirect | kern/fs/sfs/sfs_vnode.c:171-261 | the block behind an indirect slot, allocated on demand, with the invariant and all files kept; it fills that slot and the indirect block or none |
| SfsVolume.Volume.Bmap | kern/fs/sfs/sfs_vnode.c:115-261 | the disk block of file block fb, allocated on demand; EINVAL exactly from block 143 on; ENOSPC only when no block is free; it fills no slot but that of the block and, from block 15 on, the indirect block; whatever happens, no file's bytes change |
| SfsVolume.Volume.CheckUsed | kern/fs/sfs/sfs_vnode.c:255-258 | the "marked free" panic is unreachable: a mapped block has its bit set |
| SfsVolume.Volume.FetchBlock | kern/fs/sfs/sfs_vnode.c:308-327 | a buffer with the stored block, or with zeros where the file has none |
| SfsVolume.Volume.PartialIo | kern/fs/sfs/sfs_vnode.c:277-347 | moves exactly len bytes within one block, or nothing on an error |
| SfsVolume.Volume.RwBlock | kern/fs/sfs/sfs_io.c:17-55 | one sector between the device and the cursor, on a fault-free device |
| SfsVolume.Volume.BlockIo | kern/fs/sfs/sfs_vnode.c:352-412 | moves exactly one block between the file and the cursor, or nothing on an error |
| SfsVolume.Volume.WholeBlocks | kern/fs/sfs/sfs_vnode.c:475-485 | moves as many whole blocks as the request has |
| SfsVolume.Volume.LeadingPartial | kern/fs/sfs/sfs_vnode.c:447-468 | moves the rest of a block when the offset is not block-aligned |
| SfsVolume.Volume.FromBoundary | kern/fs/sfs/sfs_vnode.c:470-497 | from a block boundary on, moves the whole request, or a prefix of it that ends at a block boundary |
| SfsVolume.Volume.Transfer | kern/fs/sfs/sfs_vnode.c:447-497 | moves the whole request, or a prefix of it that ends at a block boundary or before the first byte; takes at most one block for each file block it went through, besides the indirect block, and fills no slot that the request does not touch |
| SfsVolume.CostJoin | kern/fs/sfs/sfs_vnode.c:417-497 | the blocks a request may take are the sum over its parts, when it is cut at a block boundary |
| SfsVolume.GrewTwice | kern/fs/sfs/sfs_vnode.c:417-497 | what two transfers fill is what the request that holds both of them touches |
| SfsVolume.Volume.RaiseSize | kern/fs/sfs/sfs_vnode.c:499-506 | the size becomes the offset reached, if that is larger; together with what was stored this is the whole effect of the write |
| SfsVolume.Volume.Io | kern/fs/sfs/sfs_vnode.c:417-513 | a write stores exactly the consumed prefix of the data in the file, all of it on success, and raises the size also on failure; a read delivers exactly the bytes up to the end of the file; offset and resid move together; no other file changes; a write keeps every pointer there is and fills only empty slots of blocks it touches, at most one block for each, besides the indirect block |
| SfsVolume.Volume.CutDirectBlocks | kern/fs/sfs/sfs_vnode.c:1093-1100 | every direct slot at or past blocklen is cleared and its block freed once |
| SfsVolume.Volume.CutIndirectBlocks | kern/fs/sfs/sfs_vnode.c:1120-1133 | every indirect slot past blocklen, by the source's strict comparison, is cleared and freed once, and whether any entry is left is reported |
| SfsVolume.Volume.TruncateIndirect | kern/fs/sfs/sfs_vnode.c:1102-1148 | the indirect block is released exactly when no entry is left |
| SfsVolume.Volume.Truncate | kern/fs/sfs/sfs_vnode.c:1063-1157 | a direct slot is cleared exactly when 512 * k is at or past the length, an indirect one exactly when 512 * (14 + j) is; the indirect block goes exactly when nothing is left in it and the length is at most 141 blocks; the blocks of these slots, and no others, become free; the ownership invariant is kept and no bit is cleared twice |
| SfsVolume.TruncatedToNothing | kern/fs/sfs/sfs_vnode.c:856-924 | truncation to length 0 leaves an inode without any block, whatever it had |
| SfsVolume.Volume.SyncInode | kern/fs/sfs/sfs_vnode.c:38-51 | the inode on disk equals the one in memory and no file changes |
| SfsVolume.Volume.LoadVnode | kern/fs/sfs/sfs_vnode.c:1545-1651 | takes one reference, reading the inode from disk if it is not in the table, and changes nothing else |
| SfsVolume.Volume.CheckInode | kern/fs/sfs/sfs_vnode.c:1587-1591 | the panic for an inode on an unallocated block is unreachable |
| SfsVolume.Volume.MakeObj | kern/fs/sfs/sfs_vnode.c:761-783 | a new empty inode on a fresh block, or ENOSPC with nothing changed |
| SfsVolume.Volume.Decref | kern/fs/sfs/sfs_vnode.c:856-924 | the last reference writes the inode back, and erases the file exactly when it has no links; other files and vnodes stay as they are |
| SfsVolume.Volume.Erase | kern/fs/sfs/sfs_vnode.c:856-924 | a file nothing refers to loses all its blocks and its inode, and no other file changes |
| SfsDirectory.ReadDir | kern/fs/sfs/sfs_vnode.c:523-550 | reads the entry of the slot; the short-entry panic is unreachable |
| SfsDirectory.WriteDir | kern/fs/sfs/sfs_vnode.c:556-584 | a slot is written whole or not at all; EINVAL exactly for a slot past the largest file; overwriting a slot in use cannot fail and takes no block, a new slot takes at most two, and ENOSPC leaves no block free and takes at most one |
| SfsDirectory.FindName | kern/fs/sfs/sfs_vnode.c:614-658 | finds the only slot with the name, or reports ENOENT exactly when there is none, with the last free slot if there is one; the duplicate-name assertion holds |
| SfsDirectory.DirLink | kern/fs/sfs/sfs_vnode.c:664-703 | puts the entry in the last free slot, and at the end exactly when there is none; EEXIST, ENAMETOOLONG and EINVAL have their exact conditions; at most two blocks are taken, and ENOSPC leaves no block free and takes at most one |
| SfsDirectory.Link | kern/fs/sfs/sfs_vnode.c:1243-1264 | inserts the name in the map and raises the link count by one, or changes neither; EINVAL exactly when all 1144 entries a directory can have are in use; at most two blocks are taken, and ENOSPC leaves none free and comes only when at most one was |
| SfsDirectory.Unlink | kern/fs/sfs/sfs_vnode.c:1269-1297 | deletes the name from the map and lowers the link count by one |
| SfsDirectory.Release | kern/fs/sfs/sfs_vnode.c:856-924 | dropping a reference keeps link counts equal to the number of entries, and frees the inode exactly when it was the last reference to an unlinked file |
| SfsDirectory.LookOnce | kern/fs/sfs/sfs_vnode.c:726-752 | a reference to the named file, or ENOENT exactly when the name is not in the map; the zero link count panic is unreachable |
| SfsDirectory.Remove | kern/fs/sfs/sfs_vnode.c:1269-1297 | deletes the name; the inode goes exactly when this was its last link and nobody had it open; all other files are untouched |
| SfsDirectory.Move | kern/fs/sfs/sfs_vnode.c:1327-1379 | the new name replaces the old one in the map; errors as for link; the path that undoes the link is never needed |
| SfsDirectory.Rename | kern/fs/sfs/sfs_vnode.c:1305-1379 | moves the key in the map, keeping the inode, its bytes and its link count; every error but ENOSPC has its exact condition; at most two blocks are taken, and ENOSPC leaves none free and comes only when at most one was |
| SfsDirectory.NewFile | kern/fs/sfs/sfs_vnode.c:761-783 | a new inode has no links and no entry names it |
| SfsDirectory.CreateNew | kern/fs/sfs/sfs_vnode.c:1214-1236 | a new empty file under the name with one reference, or an error with the directory, the inodes and the references as before; ENOSPC only when at most two blocks are free, EINVAL only for a full directory, ENAMETOOLONG only for a long name; at most three blocks are taken |
| SfsDirectory.Create | kern/fs/sfs/sfs_vnode.c:1183-1236 | opens the existing file unless excl is set, otherwise inserts an empty new one; EEXIST exactly for an existing name with excl; the other errors as for a new file |
| SfsDirectory.OpenNamed | kern/fs/sfs/sfs_vnode.c:1545-1651 | opening adds one reference to the file and keeps every other reference, every file, every entry and every link count |
| SfsDirectory.CheckRegular | kern/fs/sfs/sfs_vnode.c:1325 | the assertion that the renamed file is regular holds |
| SfsAbstract.PutVisible | kern/fs/sfs/sfs_vnode.c:417-513 | a write acts as the overlay of what a reader sees if and only if it jumps over no stale byte |
| SfsAbstract.CutVisible | kern/fs/sfs/sfs_vnode.c:1063-1157 | truncation resizes what a reader sees if and only if it uncovers no stale byte |
| SfsAbstract.CutTail | kern/fs/sfs/sfs_vnode.c:1093-1151 | truncation leaves no stale byte if and only if no nonzero byte that is cut off lies in a kept block |
| SfsAbstract.SafeCut | kern/fs/sfs/sfs_vnode.c:1063-1157 | truncation to length 0 and extension never leave a stale byte |
| SfsAbstract.CutThenExtend | kern/fs/sfs/sfs_vnode.c:1063-1157 | cutting to one length and extending to another shows the two resizes if and only if no nonzero byte in a kept block lies between the two lengths |
| SfsAbstract.StillThere | kern/fs/sfs/sfs_vnode.c:1063-1157 | two bytes written at the start of any file are both there after a cut to one byte and an extension to two |
| SfsAbstract.StaleRun | kern/fs/sfs/sfs_vnode.c:1063-1157 | creat, a write of two bytes, truncation to 1, truncation to 2 and a read of two bytes, all of which succeed, deliver the second byte, whatever it was |
| SfsAbstract.OtherSteps | kern/fs/sfs/sfs_vnode.c:1474-1539 | operations on names, and reads, change the bytes of no file, and a new file is empty |
| SfsAbstract.PlainStep | kern/fs/sfs/sfs_vnode.c:1474-1539 | an operation that truncates only to nothing or to an extension acts as on plain byte sequences and leaves no stale byte |
| SfsAbstract.PlainRun | kern/fs/sfs/sfs_vnode.c:1474-1539 | so does every operation of every run of such operations |
| SfsAbstract.SpaceLeft | kern/fs/sfs/sfs_vnode.c:60-89 | over every run the free blocks never fall by more than the operations need: 3 for creat, 2 for link and rename, one for each block touched and one more for a write, none for the others |
| SfsAbstract.EnoughSpace | kern/fs/sfs/sfs_vnode.c:60-78 | no operation of a run reports ENOSPC when the run starts with as many free blocks as its operations need |
| Mksfs.FsckReport | kern/fs/sfs/sfs_vnode.c:60-103 | under the invariant a bit of the map is set exactly when it is that of block 0, of one of the ceil(n / 4096) map blocks from block 2 on, of a block past the end of the disk, or of a block held by a slot, and no block is held twice |
| Mksfs.WriteMap | kern/fs/sfs/sfs_fs.c:39-73 | the free map goes to its blocks and no other block changes |
| Mksfs.ReadMap | kern/fs/sfs/sfs_fs.c:39-73 | the bytes read are the map stored on disk |
| Mksfs.SyncAll | kern/fs/sfs/sfs_fs.c:119-124 | every vnode is clean afterwards and no file changed |
| Mksfs.Sync | kern/fs/sfs/sfs_fs.c:80-145 | the disk alone holds the whole volume: mounting it shows the same files |
| Mksfs.Mount | kern/fs/sfs/sfs_fs.c:208-311 | mounting a synced or fresh disk gives a volume that satisfies the invariant and shows the disk's files |
| Mksfs.DoAllocBit | sbin/mksfs/mksfs.c:75-84 | sets exactly the given bit |
| Mksfs.MarkBits | sbin/mksfs/mksfs.c:86-114 | exactly the reserved blocks, the root inode and the bits past the end of the disk are marked |
| Mksfs.Format | sbin/mksfs/mksfs.c:58-165 | a fresh volume of any size from 3 blocks up satisfies all invariants; its only inode is the root directory in block 1, empty, of type 2 and with one link |
| SfsSession.Write | kern/fs/sfs/sfs_vnode.c:941-948 | a prefix of the data is stored, all of it on success; the file becomes the overlay of its old bytes with the data if and only if no stale bytes lie in the gap; only this file changes, and only blocks the request touches are allocated; the errors have their conditions |
| SfsSession.Read | kern/fs/sfs/sfs_vnode.c:929-936 | delivers the bytes of the file from the offset to the end of the request or of the file and changes nothing; for a nonempty request EINVAL exactly when that range passes the largest file size, and then what lies below that size is delivered |
| SfsSession.Ftruncate | kern/fs/sfs/sfs_vnode.c:1063-1157 | for every length, a byte stays stored exactly when its block begins below the length or, past the direct blocks, the block before it does; the content is resized if and only if no stale bytes lie between the old end and the new one; the bytes cut off stay out of sight for good if and only if none is left stale |
| SfsSession.WrittenElsewhere | kern/fs/sfs/sfs_vnode.c:417-513 | a write changes the bytes, the size and the type of no other file |
| SfsSession.VisibleContent | kern/fs/sfs/sfs_vnode.c:929-936 | what a reader sees of the abstract file is the content of the file |
| SfsSession.PutFile | kern/fs/sfs/sfs_vnode.c:417-513 | on the stored bytes a write is exactly the abstract one |
| SfsSession.CutFile | kern/fs/sfs/sfs_vnode.c:1063-1157 | on the stored bytes truncation is exactly the abstract one, for every length |
| SfsSession.LinkedNamed | kern/fs/sfs/sfs_vnode.c:1243-1297 | a file has a link exactly when a name refers to it |
| SfsSession.Exists | kern/fs/sfs/sfs_vnode.c:856-924 | an inode is allocated exactly when the file is open or named |
| SfsSession.BlocksConserved | kern/fs/sfs/sfs_vnode.c:60-103 | free blocks, blocks held by a file, the superblock and the blocks of the free map together are the disk: no block is lost and none is counted twice |
| SfsSession.WriteSpace | kern/fs/sfs/sfs_vnode.c:417-513 | a write leaves all free blocks but those it may take, and one that ran out of space found fewer than it needs |
| SfsSession.SweptFiles | kern/fs/sfs/sfs_vnode.c:856-924 | an operation that drops a reference or a name removes exactly that file, when it is neither open nor named any more |
| SfsSession.StepCreat | kern/fs/sfs/sfs_vnode.c:1183-1236 | creat is a step of the abstract filesystem: it opens the existing file, or makes an empty one under a number no file has, or fails for a stated reason with nothing changed; it takes at most 3 blocks and reports ENOSPC only with fewer free |
| SfsSession.StepOpen | kern/fs/sfs/sfs_vnode.c:726-752 | so is opening a name: ENOENT exactly when there is none, otherwise one more reference |
| SfsSession.StepClose | kern/fs/sfs/sfs_vnode.c:856-924 | so is dropping a reference: EBADF exactly when the file is not open, and the file is removed exactly when it is neither open nor named any more |
| SfsSession.StepLink | kern/fs/sfs/sfs_vnode.c:1243-1264 | so is link: EBADF exactly when the file is not open, the other errors as for SfsDirectory.Link |
| SfsSession.StepRemove | kern/fs/sfs/sfs_vnode.c:1269-1297 | so is remove: ENOENT exactly when there is no such name, and the file is removed exactly when it is neither open nor named any more |
| SfsSession.StepRename | kern/fs/sfs/sfs_vnode.c:1305-1379 | so is rename, with the conditions of its errors |
| SfsSession.StepWrite | kern/fs/sfs/sfs_vnode.c:941-948 | so is write, at any offset: EBADF exactly when the file is not open, EINVAL only at the largest file size, ENOSPC only when fewer blocks are free than the request touches, counting an indirect block, and then only when none is left and the one to write is not stored |
| SfsSession.StepTruncate | kern/fs/sfs/sfs_vnode.c:1063-1157 | so is truncation, to every length: EBADF exactly when the file is not open, otherwise the bytes that stay stored are those `SfsSession.Ftruncate` says |
| SfsSession.StepFsync | kern/fs/sfs/sfs_vnode.c:1041-1047 | so is fsync, which changes nothing that can be seen; EBADF exactly when the file is not open |
| SfsSession.StepSync | kern/fs/sfs/sfs_fs.c:80-145 | so is sync |
| SfsSession.StepRead | kern/fs/sfs/sfs_vnode.c:929-936 | so is read, whose output is the slice of what the abstract file shows: EBADF exactly when the file is not open, EINVAL for a nonempty request exactly when the slice passes the largest file size |
| SfsSession.Step | kern/fs/sfs/sfs_vnode.c:1474-1539 | every operation keeps all invariants and is a step of the abstract filesystem |
| SfsSession.Boot | kern/fs/sfs/sfs_vnode.c:1657-1670 | after mksfs and mount there is no name, no file and nothing open, and all blocks but the root, the superblock and the free map are free |
| SfsSession.Session | kern/fs/sfs/sfs_vnode.c:1474-1539 | from mksfs on, for every sequence of operations with truncation to any length, the results and the final volume are those of a run of the abstract filesystem, the ownership and link-count invariants hold, at every point exactly the files exist that are open or named, no operation reports ENOSPC if together they need no more blocks than the new volume has free, and at the end free and held blocks add up to the disk |
| SfsSession.Reboot | kern/fs/sfs/sfs_fs.c:80-311 | sync and a new mount show every name and every stored byte the volume had, with nothing open and as many free blocks; the new volume satisfies all invariants if and only if no open file was unlinked |
| SfsSession.Durable | kern/fs/sfs/sfs_fs.c:80-311 | after every run from mksfs on, sync and a new mount show exactly the names, files and number of free blocks the run ended with |
| SfsSession.PlainSession | kern/fs/sfs/sfs_vnode.c:1474-1539 | in every run from mksfs on that truncates only to nothing or to an extension, files behave as plain byte sequences |
| MallocModel.HeaderFields | lib/libc/malloc.c:45-109 | the bit fields of a header are read back as they were written |
| MallocModel.HeaderLayout | lib/libc/malloc.c:50-61 | the words of a header: 29 bits of offset, the in-use bit in the second one, and the magic number 2 |
| MallocModel.HeaderUpdates | lib/libc/malloc.c:45-109 | assigning one bit field changes that field of the header only |
| MallocModel.FirstFit | lib/libc/malloc.c:332-377 | the lowest-addressed free block that is large enough, or the end when no block is |
| MallocModel.LowestIs | lib/libc/malloc.c:332-362 | in bytes: the search finds the lowest free block that has as many bytes as asked for, and none exactly when every free block is too small |
| MallocModel.TakenLen | lib/libc/malloc.c:265-302 | the block is given whole, unless it is at least 16 bytes larger than the request rounded up to 8; then the rest becomes a free block behind it |
| MallocModel.SplitTiles | lib/libc/malloc.c:265-302 | splitting keeps the blocks tiling the heap |
| MallocModel.SplitTags | lib/libc/malloc.c:265-302 | the headers __malloc_split writes are the boundary tags of the split block list |
| MallocModel.MergeTags | lib/libc/malloc.c:425-451 | the headers __malloc_trymerge writes are the boundary tags of the merged block list |
| MallocModel.GrowTags | lib/libc/malloc.c:382-402 | the header of the block at the old top extends the tagging |
| MallocModel.TakenTight | lib/libc/malloc.c:265-302 | allocating from a free block leaves no two adjacent free blocks |
| MallocModel.FreedTight | lib/libc/malloc.c:492-508 | freeing, with its merges up and then down, leaves no two adjacent free blocks |
| MallocModel.SplitDead | lib/libc/malloc.c:265-302 | splitting keeps every byte of free blocks behind their headers at 0xdeadbeef |
| MallocModel.MergeDead | lib/libc/malloc.c:425-451 | so does merging, which wipes the header in between |
| MallocModel.FreedDead | lib/libc/malloc.c:492-496 | so does freeing, which wipes the block |
| MallocModel.AllFreeIsOneBlock | lib/libc/malloc.c:425-451 | a heap with nothing live is at most one block |
| MallocModel.TakenLive | lib/libc/malloc.c:307-403 | exactly the taken block becomes live |
| MallocModel.FreedLive | lib/libc/malloc.c:456-514 | exactly the freed block stops being live, whatever merges happen |
| MallocModel.LiveApart | lib/libc/malloc.c:307-403 | live blocks do not overlap and lie below the heap top |
| MallocModel.TakenNew | lib/libc/malloc.c:307-403 | a block from the free list is apart from all live blocks and at most one granule larger than asked for |
| MallocModel.HeapRun | lib/libc/malloc.c:307-514 | over every sequence of requests and releases the blocks tile the heap, no two free blocks touch, and with nothing live at most one block is left |
| Malloc.RoundedEnough | lib/libc/malloc.c:329-330 | the rounded size is enough for the request if and only if the addition does not wrap |
| Malloc.Heap.constructor | lib/libc/malloc.c:121-178 | the heap starts empty at the break rounded up to the block size |
| Malloc.Heap.Sbrk | lib/libc/malloc.c:236-255 | the top rises by exactly the amount asked for, or not at all |
| Malloc.Heap.Scan | lib/libc/malloc.c:332-380 | finds the first-fit block; no "Heap corrupt" exit of the scan is reachable |
| Malloc.Heap.Split | lib/libc/malloc.c:265-302 | the memory holds the tags of the split list and no live block's data changed |
| Malloc.Heap.Take | lib/libc/malloc.c:364-376 | the block is split and used, tags and live data intact, no two free neighbours |
| Malloc.Heap.Grow | lib/libc/malloc.c:382-402 | one used block at the old top, or nothing when sbrk refuses |
| Malloc.Heap.Malloc | lib/libc/malloc.c:307-403 | takes the lowest free block that has room for the size, in bytes, and gives back what is left of it if that is large enough for a block; grows the heap, or returns NULL, only when every free block is too small; the result is 8-aligned, large enough and apart from every live block; no live byte changes; NULL changes nothing |
| Malloc.Heap.Wipe | lib/libc/malloc.c:411-420 | fills exactly the given range |
| Malloc.Heap.TryMerge | lib/libc/malloc.c:425-451 | two free neighbours become one block; the "inconsistent" exit is unreachable; live data intact |
| Malloc.Heap.Coalesce | lib/libc/malloc.c:498-508 | both merges, in the source's order, with tags and live data intact |
| Malloc.Heap.Free | lib/libc/malloc.c:456-514 | exactly the given block stops being live and no other live byte changes; its bytes read 0xdeadbeef; the call exits if and only if the pointer equals the heap top; the other exits are unreachable |
| Malloc.Heap.Store | lib/libc/malloc.c:104-105 | a store into one's own block changes no header and no other block |
| Malloc.FreeExits | lib/libc/malloc.c:474-476 | the pointer equals the heap top exactly for a zero-byte block that is the last one |
| Malloc.FreeOfEmptyBlock | lib/libc/malloc.c:474-476 | malloc(0) as the first call, followed by free of its result, exits |
| MallocClient.GrantsApart | lib/libc/malloc.c:307-403 | the bytes of two allocations a program holds do not overlap |
| MallocClient.Keeps | lib/libc/malloc.c:307-514 | a step that keeps the live blocks and their data keeps everything the program expects in memory |
| MallocClient.AllocKeeps | lib/libc/malloc.c:307-403 | so does malloc, which adds one allocation apart from the others |
| MallocClient.FreeKeeps | lib/libc/malloc.c:456-514 | so does free, which forgets one allocation |
| MallocClient.PutKeeps | lib/libc/malloc.c:104-105 | so does a store into an allocation, which changes what is expected there |
| MallocClient.Persists | lib/libc/malloc.c:307-514 | a granule that was stored stays what the program expects until it is stored again or its allocation is freed |
| MallocClient.Run | lib/libc/malloc.c:307-514 | for every sequence of allocations, frees and stores from an empty heap on, with any refusals of sbrk, the heap stays valid, what is held is allocated and does not overlap, and every granule that was stored, and neither stored again nor freed since, is there; the run ends early only by freeing an allocation of size 0 |
| KHeapModel.ChainCut | kern/lib/kheap.c:307-330 | unlinking one element through its predecessor leaves the list without that element |
| KHeapModel.FilterWithout | kern/lib/kheap.c:307-330 | removing a page from the list of all pages and from the list of its size keeps the second the sublist of the first |
| KHeapModel.FreshBlocks | kern/lib/kheap.c:440-450 | the free list of a fresh page has exactly the blocks of the page |
| KHeapModel.PopLive | kern/lib/kheap.c:380-406 | exactly the head of the free list becomes live |
| KHeapModel.NewPageCore | kern/lib/kheap.c:431-456 | a fresh page put on both lists keeps the invariant |
| KHeapModel.PushCore | kern/lib/kheap.c:507-526 | linking a freed block in front of its page's free list keeps the invariant |
| KHeapModel.AllFree | kern/lib/kheap.c:528-534 | as many distinct free blocks as a page has blocks are all its blocks |
| KHeapModel.DropLive | kern/lib/kheap.c:528-534 | a page is released only when none of its blocks is live |
| KHeapModel.LiveApart | kern/lib/kheap.c:350-460 | live blocks are pairwise apart and apart from the multi-page allocations |
| KHeapModel.SamePageOnce | kern/lib/kheap.c:481-492 | an address lies on one listed page only, so kfree finds the block's own page |
| KHeapModel.TookBlock | kern/lib/kheap.c:372-407 | taking a block of a listed page keeps the invariant, adds exactly that block to the live ones and changes no live word |
| KHeapModel.TookPage | kern/lib/kheap.c:409-459 | the same for the first block of a new page |
| KHeapModel.GaveBlock | kern/lib/kheap.c:507-526 | giving a block back removes exactly that block from the live ones and changes no other live word |
| KHeapModel.GavePage | kern/lib/kheap.c:528-534 | releasing a wholly free page loses no live block and leaves no listed page wholly free |
| KHeapModel.PokeLive | kern/lib/kheap.c:380-406 | a store into a live block keeps the invariant: no free list runs through it |
| KHeapModel.PokeBig | kern/lib/kheap.c:545-563 | so does a store into a multi-page allocation |
| KHeapModel.PokeKept | kern/lib/kheap.c:350-460 | such a store changes no word of any other live block or page range |
| KHeapModel.PagesCover | kern/lib/kheap.c:549-556 | the page count of a large request covers it if and only if rounding up does not wrap, and then has no spare page |
| KHeapModel.SizePower | kern/lib/kheap.c:332-348 | the smallest size class that fits is the least power of two from 16 up |
| KHeapModel.PagesWrap | kern/lib/kheap.c:549-556 | a request of 2^32 - 4095 bytes asks for no page at all |
| KHeap.KHeap.constructor | kern/lib/kheap.c:104-153 | at boot the invariant holds and nothing is live |
| KHeap.KHeap.AllocPageref | kern/lib/kheap.c:110-133 | sets the lowest clear bit, or answers NULL exactly when all 256 are set |
| KHeap.KHeap.FreePageref | kern/lib/kheap.c:135-148 | clears exactly the given bit; its assertion holds |
| KHeap.FindType | kern/lib/kheap.c:332-348 | the smallest size class that holds the request; the panic is unreachable |
| KHeap.KHeap.FindFree | kern/lib/kheap.c:372-378 | a page of the size with a free block, or NULL exactly when there is none |
| KHeap.KHeap.TakeBlock | kern/lib/kheap.c:380-406 | pops the free list; all four assertions hold |
| KHeap.KHeap.Thread | kern/lib/kheap.c:440-448 | threads the free list through the page and touches no other word |
| KHeap.KHeap.AddPage | kern/lib/kheap.c:431-456 | the new page is at the head of both lists with all its blocks free |
| KHeap.KHeap.SubpageKmalloc | kern/lib/kheap.c:350-460 | adds exactly one live block of the smallest size class that fits, apart from all others, and changes no live word; NULL exactly when all pages of the size are full and no pageref or page can be had, and then nothing changed |
| KHeap.KHeap.FindPage | kern/lib/kheap.c:481-498 | the listed page the address is on, or NULL exactly when it is on none |
| KHeap.KHeap.Fill | kern/lib/kheap.c:6-16 | fills exactly the block |
| KHeap.KHeap.Unlink | kern/lib/kheap.c:307-330 | the list without the page, all other links unchanged |
| KHeap.KHeap.PutBlock | kern/lib/kheap.c:507-526 | the block is in front of its page's free list and only its own words changed |
| KHeap.KHeap.DropPage | kern/lib/kheap.c:528-534 | the page is on no list and its bit is clear, all else as before |
| KHeap.KHeap.SubpageKfree | kern/lib/kheap.c:462-540 | frees exactly the given live block with the invariant kept, and wipes it but for its first word, or reports that the address is on none of the pages; the panic and the count assertion are unreachable |
| KHeap.KHeap.Kmalloc | kern/lib/kheap.c:545-563 | below 2048 bytes the least power of two from 16 up that fits, and NULL exactly when all pages of that size are full and no pageref or page can be had; from there on the least number of pages, recorded as a range that overlaps nothing, and NULL exactly when there are none; NULL changes nothing and no live word changes |
| KHeap.KHeap.Kfree | kern/lib/kheap.c:565-577 | exactly the given block or page range is given back, a block wiped but for its first word, and no other live word changes; the alignment assertion holds |
| KHeap.KHeap.Store | kern/lib/kheap.c:545-563 | the owner of a live block may store into it: the heap stays valid and every other live word is kept |
| KHeap.KHeap.StoreBig | kern/lib/kheap.c:545-563 | so may the owner of a multi-page allocation |
| KHeapClient.GrantsApart | kern/lib/kheap.c:350-563 | two allocations a client holds, of any sizes, do not overlap |
| KHeapClient.KeepsWanted | kern/lib/kheap.c:350-577 | a step that keeps the words of what stays allocated keeps everything the client expects in memory |
| KHeapClient.SmallAlloc | kern/lib/kheap.c:350-460 | so does a subpage allocation, which adds one allocation |
| KHeapClient.BigAlloc | kern/lib/kheap.c:549-556 | so does an allocation of whole pages |
| KHeapClient.Persists | kern/lib/kheap.c:545-577 | a word that was stored stays what the client expects until it is stored again or its allocation is freed |
| KHeapClient.KPages | kern/vm/addrspace.c:583-601 | pages are handed out from below and never taken back, so they overlap nothing allocated, and run out exactly at the end of memory |
| KHeapClient.Run | kern/lib/kheap.c:545-577 | from boot on, for every sequence of allocations, frees and stores, the heap stays valid, what is held is allocated and does not overlap, and every word that was stored, and neither stored again nor freed since, is there |
| Queue.PickedInOrder | kern/thread/scheduler.c:89-120 | the element at position k is what pick k delivers, whatever is appended meanwhile |
| Queue.Queue.constructor | kern/lib/queue.c:53-68 | an empty sequence |
| Queue.Queue.Empty | kern/lib/queue.c:83-88 | answers whether the sequence is empty |
| Queue.Queue.Grow | kern/lib/queue.c:17-51 | the same sequence in a larger ring; the appends it makes do not grow again |
| Queue.Queue.AddTail | kern/lib/queue.c:90-108 | appends across wrap-around and growth, and fails only for lack of memory with nothing changed |
| Queue.Queue.Preallocate | kern/lib/queue.c:70-81 | the sequence is unchanged and the ring has at least the given number of slots |
| Queue.Queue.RemHead | kern/lib/queue.c:110-121 | takes the first element |
| PtrArray.PtrArray.constructor | kern/lib/array.c:15-26 | an empty array |
| PtrArray.PtrArray.Preallocate | kern/lib/array.c:42-65 | the contents are unchanged and there is room |
| PtrArray.PtrArray.SetSize | kern/lib/array.c:67-89 | the first elements are kept |
| PtrArray.PtrArray.Add | kern/lib/array.c:99-114 | appends, or fails with the contents unchanged |
| PtrArray.PtrArray.Remove | kern/lib/array.c:116-127 | removes the element and keeps the order of the others |
| ThreadModel.MatchingIff | kern/thread/thread.c:742-770 | exactly the sleepers on the address are woken |
| ThreadModel.MatchingRest | kern/thread/thread.c:742-770 | woken and remaining sleepers together are the sleepers there were |
| ThreadModel.WokenAllExact | kern/thread/thread.c:742-770 | waking an address moves exactly its sleepers to the tail of the run queue, from left to right, and the others keep their order |
| ThreadModel.WokenOneExact | kern/thread/thread.c:776-800 | waking one moves exactly the first sleeper on the address, and nobody if there is none |
| ThreadModel.SwitchPartition | kern/thread/thread.c:559-643 | yielding and sleeping keep every live thread in exactly one of current, run queue and sleepers, and the count right, whatever interrupts do meanwhile |
| ThreadModel.ExitPartition | kern/thread/thread.c:652-699 | so does exiting, which lowers the count by one |
| ThreadModel.ForkPartition | kern/thread/thread.c:515-527 | so does fork, which raises it by one |
| ThreadModel.WakePartition | kern/thread/thread.c:742-800 | so does waking one or all |
| ThreadModel.ZombiesStayDead | kern/thread/thread.c:301-317 | a zombie is not current, ready or asleep |
| Threads.Threads.constructor | kern/thread/thread.c:370-418 | one thread, running |
| Threads.Threads.MakeRunnable | kern/thread/scheduler.c:113-120 | the thread is at the tail of the run queue |
| Threads.Threads.Wakeup | kern/thread/thread.c:742-770 | moves exactly the matching sleepers to the tail of the queue in order and keeps the order of the others, though the loop removes while it scans |
| Threads.Threads.WakeupOne | kern/thread/thread.c:776-800 | moves exactly the first matching sleeper |
| Threads.Threads.Scheduler | kern/thread/scheduler.c:89-107 | takes the head of the queue after any interrupts that idling lets in |
| Threads.Threads.Exorcise | kern/thread/thread.c:301-317 | the zombies are gone; none was the current thread |
| Threads.Threads.Switch | kern/thread/thread.c:559-643 | the caller is on the list its new state says and the head of the queue runs; from a partition of the threads the switch makes a partition |
| Threads.Threads.Yield | kern/thread/thread.c:704-714 | the caller is at the tail of the queue |
| Threads.Threads.Sleep | kern/thread/thread.c:727-736 | the caller is at the end of the sleepers with its address before anything else runs, and the head of the queue runs |
| Threads.Threads.Exit | kern/thread/thread.c:652-699 | the caller is not counted any more and is on no list that can run, and the head of the queue runs with all other lists as the switch leaves them |
| Threads.Threads.Fork | kern/thread/thread.c:493-554 | the new thread is counted and at the tail of the queue |
| Synch.StepInv | kern/thread/synch.c:62-299 | every step of every operation, interrupt, switch and disposal of zombies keeps the invariant: the thread partition, one owner per held lock, what sleepers wait for, no lost wake-up; an interrupt may wake any address |
| Synch.ReleaseInv | kern/thread/synch.c:161-177 | after a release a lock with sleepers has a runnable thread about to retry it |
| Synch.VInv | kern/thread/synch.c:85-95 | after V nobody sleeps on the semaphore, so its positive count loses no wake-up |
| Synch.RunInv | kern/thread/synch.c:62-299 | the invariant holds after every interleaving |
| Synch.MutualExclusion | kern/thread/synch.c:139-195 | over every interleaving at most one thread is between acquire and release of a lock, and it is the holder |
| Synch.NothingLost | kern/thread/synch.c:139-177 | over every interleaving a lock a thread sleeps on is held or has a runnable retrier, and a semaphore a thread sleeps on is at zero |
| Synch.IdleMeansHeld | kern/thread/synch.c:139-177 | with the CPU idle, every thread asleep in lock_acquire waits for a held lock |
| Synch.OwnershipStable | kern/thread/synch.c:161-177 | no other thread's step ends a thread's ownership |
| Synch.WaitAtomic | kern/thread/synch.c:238-261 | cv_wait has given up the lock and is among the sleepers of the condition before any other thread runs |
| Synch.SignalReaches | kern/thread/synch.c:263-299 | signal makes one sleeper of the condition runnable and broadcast every one |
| Synch.StepPlaced | kern/thread/synch.c:62-299 | for every step and every thread: it sleeps afterwards exactly if it slept and is not woken, or blocks; it is runnable exactly if it was and is not dispatched, or is woken, forked or yields. Signal wakes the first sleeper on the condition, broadcast all of them; whatever releases a lock wakes the first sleeper on it; V and interrupts wake all; nothing else wakes |
| Synch.HolderExact | kern/thread/synch.c:139-299 | for every step and every lock: it is held afterwards exactly if it was and is not released by its holder, or is free and acquired, and then by the current thread |
| Synch.SignalReleases | kern/thread/synch.c:263-299 | after signal or broadcast the caller does not own the lock |
| Synch.ReturnsWithLock | kern/thread/synch.c:139-159 | a thread leaves lock_acquire or cv_wait exactly when it has become the owner of a lock that was free |
| Synch.SemaphoreConserved | kern/thread/synch.c:62-95 | over any run the count is the initial one plus the Vs minus the Ps that returned |
| Synch.LiveStep | kern/thread/thread.c:493-699 | no step but a fork of that thread makes a thread current, ready or asleep that was none of these |
| Synch.GoneRun | kern/thread/thread.c:301-317 | so over every interleaving a thread that is none of these stays out |
| Synch.ExitedForGood | kern/thread/thread.c:652-699 | over every interleaving that does not fork a thread of the same number a thread that has exited never runs, becomes runnable or sleeps again |
| Synch.ReachesTrans | kern/thread/synch.c:62-299 | a run followed by a run is a run |
| Synch.ReachedInv | kern/thread/synch.c:62-299 | whatever a run reaches from boot satisfies the invariant |
| Synch.ScheduledRun | kern/thread/scheduler.c:89-107 | the interrupts an idle CPU lets in, followed by the pick of the next thread, are a run |
| SynchOps.ScheduledInv | kern/thread/scheduler.c:89-107 | whatever interrupts wake while the CPU idles, the invariant holds when the next thread runs |
| SynchOps.SwitchedRun | kern/thread/thread.c:559-643 | a switch, with the interrupts it lets in and the zombies it disposes of, extends a run |
| SynchOps.PReaches | kern/thread/synch.c:62-83 | a pass of P, the first or a later one, is a run |
| SynchOps.AcquireReaches | kern/thread/synch.c:139-159 | so is a pass of lock_acquire, also the one at the end of cv_wait |
| SynchOps.Objects.constructor | kern/thread/synch.c:17-121 | at boot one thread runs, nothing is held and the invariant holds |
| SynchOps.Objects.Up | kern/thread/synch.c:85-95 | the step of V: the count is one more, exactly the sleepers on the semaphore leave, and the invariant is kept; it is a run of Synch |
| SynchOps.Objects.DownPass | kern/thread/synch.c:62-83 | a pass of P's loop returns exactly when the count was positive and takes one; otherwise the thread sleeps and another one runs; either way it is a run of Synch and the invariant holds |
| SynchOps.Objects.Release | kern/thread/synch.c:161-177 | the step of lock_release: nothing unless the caller is the holder; then the lock is free and exactly the first sleeper on it leaves; it is a run of Synch |
| SynchOps.Objects.AcquirePass | kern/thread/synch.c:139-159 | a pass of lock_acquire's loop returns exactly when the lock was free and makes the caller its holder; otherwise the thread sleeps and another one runs; either way it is a run of Synch and the invariant holds |
| SynchOps.Objects.WaitPass | kern/thread/synch.c:238-261 | cv_wait up to the moment another thread runs is the atomic wait step followed by a switch, which is a run of Synch, with the invariant kept |
| SynchOps.Objects.Signal | kern/thread/synch.c:263-280 | the step of cv_signal: of the sleepers on the condition exactly the first leaves and becomes runnable, of those on the lock at most the first, and no other; the lock is released; a run of Synch, with the invariant kept |
| SynchOps.Objects.Broadcast | kern/thread/synch.c:282-299 | the step of cv_broadcast: exactly the sleepers on the condition leave, and of those on the lock at most the first; the lock is released; a run of Synch, with the invariant kept |
| Stoplight.CarFacts | kern/asst1/stoplight.c:89-297 | a car holds nothing before it is admitted, and a car that holds a region while it waits for another waits for the next one in the cycle |
| Stoplight.Route | kern/asst1/stoplight.c:89-297 | every program takes a way through the intersection from the region where cars of its direction come in to the one from which they leave for the destination, from each region to one beside it, two regions straight ahead, three to the left, one to the right, each once; it takes each further region while it holds the one before and gives a region up only while it holds the next one, or last; it holds the intersection all the way |
| Stoplight.InitialInv | kern/asst1/stoplight.c:370-414 | the initial counts satisfy the conservation of units |
| Stoplight.StepInv | kern/asst1/stoplight.c:89-297 | every P and V step keeps, for each semaphore, count plus units held equal to the initial count, and sleepers only at zero |
| Stoplight.MutualExclusion | kern/asst1/stoplight.c:89-297 | at most one car holds a region and at most three hold the intersection |
| Stoplight.NoDeadlock | kern/asst1/stoplight.c:89-297 | for any number of cars with any directions and turns, while some car is not done some car can take a step |
| Stoplight.StepMeasure | kern/asst1/stoplight.c:89-297 | every step makes the remaining work smaller |
| Stoplight.RunsEnd | kern/asst1/stoplight.c:89-297 | no run is longer than the work there is at the start |
| Stoplight.Completion | kern/asst1/stoplight.c:370-414 | a run that cannot go on has taken every car through, with the regions at 1, the intersection at 3 and nobody asleep |
| Stoplight.DriveThrough | kern/asst1/stoplight.c:89-414 | over every run that cannot go on, every car has gone the whole way from its direction to its destination, region after region, and was alone in each of them |
| StoplightSync.BackgroundSim | kern/thread/thread.c:559-800 | switches, interrupts on other addresses, and threads that come and go leave every car where the protocol has it |
| StoplightSync.PSim | kern/thread/synch.c:62-83 | a pass of the kernel's P on a car's semaphore is the protocol's P |
| StoplightSync.VSim | kern/thread/synch.c:85-95 | the kernel's V, which wakes every sleeper, is the protocol's V |
| StoplightSync.DrivesSim | kern/asst1/stoplight.c:89-297 | so every step of a car in the kernel is its step in the protocol |
| StoplightSync.RunSim | kern/asst1/stoplight.c:89-297 | every interleaving of the kernel in which the cars run their programs follows a run of the protocol, and the protocol's invariant holds after it |
| StoplightSync.KernelIntersection | kern/asst1/stoplight.c:89-297 | over every such interleaving at most one car is in a region and at most three are in the intersection, and the kernel's semaphores count what the protocol's do |
| Format.FormattedConcat | lib/libc/__printf.c:535-553 | the output of a concatenated format is the outputs joined, the second from the state the first leaves |
| Format.PlainText | lib/libc/__printf.c:468-475 | text without a percent sign prints as itself |
| Format.ParseDigits | lib/libc/atoi.c:41-63 | the digits of a number followed by anything are read as that number and then the rest |
| Format.ShiftedDiffers | lib/libc/__printf.c:365-368 | padding zeros on the right changes the 32-bit value of every number but zero |
| Format.FieldRoundTrip | lib/libc/__printf.c:330-456 | for every width, alignment and fill, atoi of a printed signed number is that number if and only if no zeros were padded on the right of a nonzero number |
| Format.ModifiersQuiet | lib/libc/__printf.c:149-206 | modifiers print nothing; the field is left-aligned exactly when a minus sign is among them, its width is the number their digits spell, and it is filled with zeros exactly when the first digit is 0 |
| Format.PrintParse | lib/libc/__printf.c:461-553 | for every string of modifiers, atoi of the output of %...d is the argument if and only if the modifiers do not have a minus sign, a leading 0 and a width above the length of a nonzero number |
| Format.FieldText | lib/libc/__printf.c:461-528 | the output of one conversion is its field, for any modifiers and any number of arguments taken before; integers, strings and characters take one argument |
| FormatRead.DigitsSpell | lib/libc/__printf.c:384-432 | the digits of a number, in any base up to 16, have that number as their value and no needless zero |
| FormatRead.IntegerField | lib/libc/__printf.c:378-456 | for every integer conversion and all modifiers: a minus sign, or 0x or 0 when # is given, then digits that spell the argument in the base, padded to the width on the side and with the character the modifiers say |
| FormatRead.TextField | lib/libc/__printf.c:499-528 | the same for %s, %c and any other character |
| FormatRead.UnsignedBack | lib/libc/__printf.c:378-456 | what %u, %o, %x and %p print, read in its base, is the argument if and only if no zeros were padded behind a nonzero number |
| FormatRead.AtoiReads | lib/libc/atoi.c:20-72 | atoi of spaces and tabs, a plus or minus sign or none, digits and any rest is the value of the digits with that sign as a 32-bit int, and 0 without digits |
| Format.TrailingZeros | lib/libc/__printf.c:365-368 | the number 7 printed with %-03d is 700 |
| Printf.Snp.Send | lib/libc/snprintf.c:44-64 | the buffer holds the prefix that fits of all that was sent, and is unchanged behind it |
| Printf.PF.Print | lib/libc/__printf.c:113-119 | sends the text on and counts it |
| Printf.PF.Modifier | lib/libc/__printf.c:149-206 | the state change of Format for every modifier; the assertion holds |
| Printf.PF.GetNum | lib/libc/__printf.c:213-276 | the magnitude and sign of the argument, also for the most negative int |
| Printf.PF.PrintFill | lib/libc/__printf.c:313-322 | sends the fill character that many times |
| Printf.PF.PrintStuff | lib/libc/__printf.c:330-369 | sends the prefixes and the text padded to the field width |
| Printf.PF.Digitize | lib/libc/__printf.c:384-432 | the digits of the number in the base, never writing outside the 12-byte buffer |
| Printf.PF.PrintNum | lib/libc/__printf.c:378-456 | sends sign, base prefix and digits, padded |
| Printf.PF.PrintInteger | lib/libc/__printf.c:489-499 | sends the field of an integer type and resets the state |
| Printf.PF.Send | lib/libc/__printf.c:461-528 | for every state and character, the output and next state of Format |
| Printf.Vprintf | lib/libc/__printf.c:535-553 | for every format and argument list, sends exactly the formatted text and returns its length |
| Printf.Vsnprintf | lib/libc/snprintf.c:69-112 | the first min(len - 1, total) characters and a NUL, nothing behind it changed, nothing at all for len 0, and the total is returned, per section 7.19.6.5 of ISO C99 |
| Printf.ParseDigits32 | lib/libc/atoi.c:41-63 | the 32-bit accumulator is the number modulo 2^32 |
| Printf.ParseInt | lib/libc/atoi.c:20-72 | for every string, the int that Format says atoi reads |
| Random.HistoryWindow | lib/libc/random.c:413-442 | after n calls the window holds the last words of the history |
| Random.Recurrence | lib/libc/random.c:413-442 | every word ever produced is the sum of the words deg and sep places before it |
| Random.WindowStep | lib/libc/random.c:413-442 | one addition in the array with two pointers is one shift of the window |
| Random.NotBoth | lib/libc/random.c:407-437 | the front and rear pointers never wrap on the same call and stay sep apart modulo deg |
| Random.HeaderRoundTrip | lib/libc/random.c:295-329 | the multiplexed word gives back the type and the rear position |
| Random.Rand.DrawLinear | lib/libc/random.c:420-422 | the linear congruential step of type 0 |
| Random.Rand.DrawFeedback | lib/libc/random.c:423-440 | shifts the window, returns the new word without its low bit, keeps the pointers sep apart |
| Random.Rand.Draw | lib/libc/random.c:413-442 | for every type the window shifts by one word and the 31-bit result is that word's |
| Random.Rand.DrawMany | lib/libc/random.c:413-442 | n calls shift the window n times and move the rear pointer n places around |
| Random.Rand.Srandom | lib/libc/random.c:230-247 | the window is the seed words shifted 10 * deg times and the rear pointer is back at 0 |
| Random.Rand.SeedArray | lib/libc/random.c:235-239 | the first word is the seed and each further one is 1103515245 times the one before plus 12345, modulo 2^32 |
| Random.SeededTerm | lib/libc/random.c:230-247 | after srandom, number n is word 11 * deg + n of the stream that starts with the seed words and goes on with sums of the words deg and sep places back, without its low bit |
| Random.SeededDraw | lib/libc/random.c:230-442 | the same of the calls themselves, with deg and sep 7 and 3, 15 and 1, 31 and 3 or 63 and 1 by type, and the linear congruential numbers modulo 2^31 for type 0 |
| Random.Rand.SaveHeader | lib/libc/random.c:295-299 | the array then holds the generator by itself, with 5 times the rear position plus the type in its first word |
| Random.Rand.InitState | lib/libc/random.c:281-332 | the largest generator whose words and header fit in the bytes, freshly seeded; the state left behind is kept; NULL exactly below 8 bytes |
| Random.Rand.SetState | lib/libc/random.c:353-394 | goes on where the given array was left, and leaves the old generator stored in the old array |
| Random.SwitchAndBack | lib/libc/random.c:353-394 | switching away, drawing any number of times and switching back resumes the identical stream |
| Random.PositionMatters | lib/libc/random.c:353-394 | the rear position n places further on gives the same window if and only if the state words turned by n places are the same words |
| Random.WindowTurns | lib/libc/random.c:413-442 | windows n places apart around the array are equal if and only if the words turned by n places are the same words |
| Random.DistinctTurns | lib/libc/random.c:353-394 | distinct words turn into themselves exactly by multiples of their number |
| Random.StaleHeader | lib/libc/random.c:353-394 | the stored rear position is the current one exactly after a multiple of deg draws |
| Random.SetSameState | lib/libc/random.c:344-394 | setstate on the current array keeps the stream if and only if the state words turn into themselves by the number of draws since the last switch; with distinct words, if and only if that is a multiple of deg |
| Random.SameStateFails | lib/libc/random.c:344-394 | seven state words for which setstate of the same array, after one draw, does not keep the stream: the next number is 30 where the stream goes on with 35 |
| Pseudorand.Schrage | kern/dev/generic/pseudorand.c:20-39 | Schrage's decomposition equals 16807 * seed modulo 2^31 - 1, with no intermediate outside 32 bits |
| Pseudorand.StepInverse | kern/dev/generic/pseudorand.c:20-39 | the step maps legal seeds to legal seeds and multiplication by a constant undoes it |
| Pseudorand.StepInjective | kern/dev/generic/pseudorand.c:20-39 | the step is injective on the legal seeds |
| Pseudorand.PrimeFactor | kern/dev/generic/pseudorand.c:20-39 | a divisor of 2^31 - 2 other than 1 is divisible by 2, 3, 7, 11, 31, 151 or 331 |
| Pseudorand.Generates | kern/dev/generic/pseudorand.c:20-39 | no power of 16807 below the (2^31 - 2)-th is 1 modulo 2^31 - 1 |
| Pseudorand.FullPeriod | kern/dev/generic/pseudorand.c:20-39 | from every legal seed the generator runs through all 2^31 - 2 legal seeds before it comes back, and then does come back |
| Pseudorand.Pseudorand.constructor | kern/dev/generic/pseudorand.c:50-69 | the first seed is legal |
| Pseudorand.Pseudorand.Random | kern/dev/generic/pseudorand.c:20-39 | the new seed is 16807 times the old one modulo 2^31 - 1 and the result is the seed less one |
| VmModel.TranslateAligned | kern/vm/addrspace.c:655-677 | the frame of a page is page-aligned, as vm_fault asserts |
| VmModel.FaultedOk | kern/vm/addrspace.c:676-690 | serving a fault keeps the TLB coherent with the space, adds no second entry for a page, and maps the page |
| VmModel.HandledIff | kern/vm/addrspace.c:648-690 | a fault is served exactly when some TLB entry lacks the valid bit and the page lies in one of the two regions, with their ends modulo 2^32, or in the 12 pages below 0x80000000 |
| VmModel.FaultedAt | kern/vm/addrspace.c:655-690 | then the lowest such entry maps the page, valid and writable, to its offset in the memory of its region, and no other entry changes |
| VmModel.TlbCoherence | kern/vm/addrspace.c:603-736 | over any sequence of activations, region definitions, loads and faults every valid TLB entry is the active space's translation, no page has two entries, and at most 64 faults are served between activations |
| VmModel.Frozen | kern/vm/addrspace.c:738-800 | once a fault has been served neither defining a region nor loading can change the active space's translation |
| VmModel.StepVmInv | kern/vm/addrspace.c:603-800 | every activation, region definition, load and fault keeps the TLB coherent with the active space |
| VmModel.ExecRuns | kern/userprog/runprogram.c:40-55 | activating an empty space, defining two regions, loading and faulting at any address is such a sequence, if the regions are not empty, do not wrap and fit in memory |
| VmModel.StealIff | kern/arch/mips/mips/ram.c:65-79 | the memory asked for was really taken if and only if the request does not wrap around 32 bits |
| VmModel.StealPlain | kern/arch/mips/mips/ram.c:65-79 | a request that does not wrap takes exactly its pages, or fails exactly for lack of memory |
| VmModel.StealWraps | kern/arch/mips/mips/ram.c:65-79 | a request of 2^20 pages succeeds and takes nothing |
| VmModel.RegionCovers | kern/vm/addrspace.c:738-775 | the region is aligned and covers what was asked for if and only if the sizes do not wrap, and then it has no spare page |
| Vm.PhysInside | kern/vm/addrspace.c:655-674 | every mapped byte lies in the space's own frames at its offset in the region |
| Vm.PhysMapped | kern/vm/addrspace.c:648-674 | exactly the bytes of the two regions and of the 12 pages below 0x80000000 are mapped |
| Vm.Isolated | kern/vm/addrspace.c:818-856 | spaces on disjoint frames share no byte |
| Vm.CopyReads | kern/vm/addrspace.c:842-852 | a space whose frames are copies has the same addresses and reads the same byte at every one of them |
| Vm.PreparedFresh | kern/vm/addrspace.c:777-800 | the frames given are new, in memory and apart from each other; loading fails exactly for lack of memory |
| Vm.AddrSpace.constructor | kern/vm/addrspace.c:697-714 | no regions and no frames |
| Vm.AddrSpace.DefineRegion | kern/vm/addrspace.c:738-775 | the first two regions are recorded, a third is refused with nothing changed, and so is any region of a loaded space; unless the sizes wrap, the region is the pages that the given bytes touch |
| Vm.Machine.StealMem | kern/arch/mips/mips/ram.c:65-79 | unless the request wraps around, exactly npages are taken from the bottom of the free memory, or nothing, exactly when there are fewer |
| Vm.Machine.Activate | kern/vm/addrspace.c:722-736 | no entry is valid and each has a page of its own outside the user's addresses, so the TLB is coherent with every space |
| Vm.Machine.Fault | kern/vm/addrspace.c:603-695 | EOK exactly when some TLB entry is free and the page is in a region or the stack, and then the lowest free entry maps it to its place in the memory of the region; the exact condition of each error; the TLB stays coherent; the alignment assertion holds |
| Vm.Machine.PrepareLoad | kern/vm/addrspace.c:777-800 | unless the sizes wrap around, the space gets aligned frames of its own, one region after the other, and keeps its regions; ENOMEM exactly for lack of memory |
| Vm.Machine.CopyFrames | kern/vm/addrspace.c:842-852 | each region's bytes are copied and nothing below the new frames changes |
| Vm.Machine.Copy | kern/vm/addrspace.c:818-856 | the child has the parent's regions on frames allocated by the call, reads the parent's byte at every address of the regions and the stack, and no byte allocated before changes; ENOMEM exactly for lack of memory |

## Left out

- Device faults and their retries: the block device never fails, so `EIO` paths of SFS are not modelled.
- Memory exhaustion inside SFS and `thread_fork`, and `thread_fork`'s error paths: `kmalloc` always succeeds there.
- Faults of user memory in `uiomove`: regions are kernel memory.
- SFS vnodes are values in a map keyed by inode number, not linked objects; a vnode's operations table is not modelled.
- The contents of the superblock, when it is written, and the checks `sfs_domount` makes on it.
- `sfs_stat`, `sfs_gettype`, `sfs_tryseek`, `sfs_namefile`, `sfs_lookparent` and opening directories: they add only easy members.
- SfsVolume.Volume.Io: offsets and lengths are kept below 2^31, where the source's signed offsets do not overflow; so are lengths of `sfs_truncate`.
- SfsSession.Session: the offsets and lengths of a run are below 2^31, as for `SfsVolume.Volume.Io`; open files are named by inode number, and `EBADF` stands for an operation on a file that is not open, which the file table above SFS would answer.
- SfsSession.StepLink: the root directory is not among the files a run opens, so a run does not link, write or truncate it; `SfsDirectory.Link` covers linking it.
- SfsSession.StepCreat: the number of blocks an operation needs is an upper bound: it counts a block for each block touched, and an indirect block, whether or not they are stored already; so with fewer free blocks the operation may or may not report `ENOSPC`.
- Uio.Uio.MoveZeros: where `uio_resid` is short of the region, n is at most `uio_resid`; `Uio.Uio.Move` says what a larger n does.
- SfsDirectory.Rename: the name to be renamed must not be a link to the root directory, which the source asserts.
- SfsVolume.Volume.LoadVnode: a forced type, which only `sfs_makeobj` passes, is part of `SfsVolume.Volume.MakeObj`.
- Mksfs.Format: volumes have at most 131072 blocks, which is what the bitmap buffer of `mksfs.c` holds, and at least the 3 blocks it writes.
- Malloc.Heap.Malloc: sizes are below 2^31 - 16, so that neither the round-up nor the int that `sbrk` takes overflows.
- Malloc.Heap.Free: pointers that malloc did not give out are outside the contract, as in section 7.20.3.2 of ISO C99.
- Malloc.Heap.Wipe: fills eight bytes at a time where the source fills four.
- The debugging code of `malloc.c` and the consistency checks of `kheap.c` that are compiled out; what the latter check is part of the invariant.
- KHeap.KHeap.Kmalloc: sizes are kept where rounding up to pages does not wrap, which is what `KHeapModel.PagesCover` is about; what `alloc_kpages` answers is a parameter that must not overlap anything allocated.
- KHeapClient.Run: sizes as for `KHeap.KHeap.Kmalloc`; the client frees and stores only where it holds an allocation, and other operations do nothing.
- MallocClient.Run: sizes as for `Malloc.Heap.Malloc`; the program frees and stores only where it holds an allocation, and stores whole granules of 8 bytes.
- KHeap.KHeap.Kfree: freeing an address that is not live is outside the contract; the source does not detect it either.
- Words of the pageref in-use map are sequences of 32 bits.
- `sem_destroy`, `lock_destroy` and `cv_destroy`, and the overflow of a semaphore count.
- SynchOps.Objects.AcquirePass: the loop is given by one pass, since other threads run between two passes; so are `P` and `cv_wait`.
- Fairness: a thread woken for a lock may find it taken again; what is proved is that a wake-up is never lost.
- Context switch assembly, stacks and address space activation in `mi_switch`; interrupts that arrive while the scheduler idles are a list of sleep addresses to wake.
- Process bookkeeping around `thread_fork` and `thread_exit` (the process list, `waitpid`).
- The messages the stoplight cars print, and the semaphore on which the menu waits for them.
- Field widths and character counts of printf are unbounded numbers; the argument list is a function from positions to words.
- The locking macros of `random.c`, and the claim that its initial table is what `initstate(1, ...)` would give.
- `pseudorand_read`, the virtual memory code that is commented out, and `as_define_stack`.
- Vm.Machine.Fault: the assertions that the space is fully loaded are the precondition, and a read-only fault, on which the source panics, is not an argument.
- Vm.Machine.Copy: the parent's frames must have come from the same memory.
