# OS/161 kernel and libc: a verified model

This project models the stateful core of an OS/161 teaching kernel and of its libc in Dafny
and proves what the code is meant to guarantee. The code updates its data in place, so most
components are classes whose methods follow the functions of the source loop by loop, proved
against a value-level model; the theorems about whole runs are lemmas about that model.

| component | files | main results |
|---|---|---|
| SFS file system | `Codec`, `Volume`, `Bitmap`, `Uio`, `Sfs`, `Directory`, `SfsDir`, `Mksfs`, `Sessions`, `TruncateRun` | block I/O refines flat byte arrays, one per file; every marked block has one owner after any run; names unique and link counts right after any run; files persist over any number of mounts; a new name is refused only when there is no block or no slot for it |
| kernel heap | `KernelHeap`, `Kheap`, `HeapRun` | live blocks disjoint, free lists exact, pages tiled, `kfree` routes every pointer back, stored data survives any run, nothing leaks |
| cat and mouse protocol | `CatMouse`, `Guardian` | safety, progress, a bound on every run and exactly-once feeding for any number of animals |
| process table | `PidTable`, `PidManager`, `PidRun`, `PidReap` | no freed block is touched, none is freed twice, waits return the child's own status, blocks of exited processes are destroyed with the exact exception |
| synchronization | `Synch` | no lost wakeup, mutual exclusion, conservation, and what each whole call of signal and broadcast does, in every interleaving |
| threads and containers | `Threads`, `Containers` | threads partitioned and counted after any run, wakeup exact and in order, after a fork sleeping never allocates and waking does exactly when no thread is current and all places are needed; FIFO ring and growable array |
| libc | `Printf`, `PrintfText`, `Atoi`, `Memmove`, `Random` | the text of every conversion with any modifiers, `%d`/`atoi` round trip with its exact condition, copies in every overlap, the recurrences of `random`, resumable generators |
| devices and memory | `PseudoRand`, `DumbVm` | the Park-Miller step without overflow; which pages are mapped and where; pages never share a frame after any run, and the TLB shows only frames of the active address space |

`Basics` holds constants and facts that several components share.

How to read it: `Volume.Inv`, `Directory.DirInv`, `KernelHeap.Inv`, `CatMouse.Inv`,
`PidTable.Inv`, `Synch.Inv`, `Threads.Placed` and `DumbVm.Disjoint` are the invariants. Each
component has a theorem about whole runs: `Sessions.Sessions`, `HeapRun.Client.Run`,
`CatMouse.AllFed`, `PidRun.RunInv`, `PidReap.Reaped`, `Synch.RunInv`, `Threads.Run`,
`Containers.RunQueue` and `DumbVm.Run`. What happens in code outside the model is a
parameter: whether or where `kmalloc` and `alloc_kpages` find memory, which thread runs next,
which sleeper a single wakeup takes. Integers of the source that can wrap are reduced modulo
2^32 where that matters (`atoi`, `printf`, `random`, region tops).

## Where the code does something its comments or callers would not expect

- `sfs_truncate` compares strictly when it cuts the indirect block, so it keeps the block at
  the new end: `Volume.ReleasesAllIff` says exactly when all blocks past the end are released,
  and `TruncateRun.TruncateKeeps` is an instance.
- A write that starts past the end of file and fails, or writes nothing, still grows the file
  to its offset (`Sfs.Mount.WriteIo`).
- `sfs_makeobj` keeps the inode block when there is no memory for the vnode, and the block is lost:
  no set of files and no owners make free map and directory both right (`Sfs.Mount.MakeObj`,
  `Directory.Leaked`).
- A file removed while it is in use is still on the device after `sfs_sync`, without a name; if the
  device goes away then, nobody frees it. `Sessions.TakenAway` has the exact condition.
- A comment in `random.c` says that `setstate` may be called with the array in use. The header
  is read before the position is saved, so this is harmless exactly when the header is up to
  date (`Random.Randomizer.SetState`, `Random.StaleHeader`). The model follows the code.
- `printf` with both `-` and `0` pads with zeros on the right, which changes the number:
  `Printf.RoundTrip` has the exact condition and `Printf.ZerosOnTheRight` an instance.
- Process 1 can wait for a child whose block is gone when it wakes (`PidRun.FirstWaiter`);
  every other parent finds it (`PidRun.WaiterServed`, `PidRun.WaitStatus`).
- The block of an exited process is kept for whoever has its parent's pid. When that pid has
  been given to another process meanwhile, nobody ever destroys the block: `PidReap.Reaped` is
  the exact condition and `PidReap.LosesOrphan` an instance.
- `thread_fork` reserves as many places as there are threads, and a ring cannot use its last
  one: `Threads.ThreadSystem.StashReady`, `Wakeup` and `WakeOne` say exactly when a thread that
  yields or is woken has no place left, `Threads.AllReady` and `Threads.AllAsleep` are instances.
- `memcpy` into the middle of its own source repeats bytes, except when the source repeats them
  anyway (`Memmove.SmearedMoves`).
- `vm_fault` leaves the interrupt level high when the thread has no address space
  (`DumbVm.Vm.Fault`). `as_define_region` after `as_prepare_load` makes regions overlap exactly
  when the region grows (`DumbVm.DefinedLate`, `DumbVm.LateRegion`).

## Assumptions

- The disk is reliable, and `kmalloc` of buffers and thread structures succeeds; in runs of SFS
  calls, that of a new file's vnode too.
- `number_of_procs` starts at 0, pid 0 has no slot, pid 1 never exits in a run, and a process
  exits once and not while it sleeps in `wait_pid`.
- `kfree` is called with NULL or a pointer the caller holds; pages from the page allocator are
  not held by anybody else.
- Hard links go to regular files only; files are used through the operations modelled here.
- A request for physical memory does not overflow 32 bits, and a ring buffer is asked for at
  most 2^30 places.
- 1 <= TURN_COUNT <= NFOODBOWLS.

## Model

| member | source | states |
|---|---|---|
| Volume.InodeRoundTrip | src/kern/include/kern/sfs.h:45-52 | an inode written to its block reads back as the same inode, for every inode |
| Volume.InodeLayout | src/kern/include/kern/sfs.h:45-52 | which big-endian word of the block holds which field of the inode |
| Volume.ByteAt | src/kern/fs/sfs/sfs_vnode.c:115-261 | byte p of a file is byte p % 512 of direct block p / 512, or of the block in entry p / 512 - 15 of the indirect block, and 0 when no block is there |
| Volume.MapSize | src/kern/include/kern/sfs.h:15-25 | the free map has a bit for every block and less than a block to spare |
| Volume.FreeMapExact | src/kern/fs/sfs/sfs_vnode.c:60-103 | a block is marked in use exactly when it is metadata or some place of some file holds it, and then one place only |
| Volume.FreeBit | src/kern/fs/sfs/sfs_vnode.c:60-78 | a clear bit always names an ordinary block inside the volume that no file owns, so an allocation never yields block 0 or a block past the end |
| Volume.RefInUse | src/kern/fs/sfs/sfs_vnode.c:83-103 | every block number stored in a file is 0 or a block of the volume that is marked, so the panics about free blocks cannot happen |
| Volume.AllocatedSame | src/kern/fs/sfs/sfs_vnode.c:60-78 | taking a block without recording it moves no block number and changes no file |
| Volume.WriteData | src/kern/fs/sfs/sfs_vnode.c:277-412 | writing a data block changes exactly the bytes of the one file block it belongs to and no byte of any other file |
| Volume.LinkedInv | src/kern/fs/sfs/sfs_vnode.c:115-261 | storing a newly allocated block in an empty place keeps single ownership of all blocks |
| Volume.LinkedFiles | src/kern/fs/sfs/sfs_vnode.c:115-261 | ... and no file's contents, size, type or link count change, because the block was cleared |
| Volume.UnlinkedInv | src/kern/fs/sfs/sfs_vnode.c:83-89 | freeing the block of a place keeps single ownership |
| Volume.UnlinkedByte | src/kern/fs/sfs/sfs_vnode.c:1063-1157 | ... and turns exactly that block of that file into zeros |
| Volume.SyncedInv | src/kern/fs/sfs/sfs_vnode.c:38-51 | writing an inode out keeps the invariant and every file |
| Volume.LoadedInv | src/kern/fs/sfs/sfs_vnode.c:1545-1651 | reading an inode in keeps the invariant and every file |
| Volume.DroppedInv | src/kern/fs/sfs/sfs_vnode.c:856-924 | forgetting a clean vnode loses nothing |
| Volume.WriteMeta | src/kern/fs/sfs/sfs_fs.c:39-73 | writing the free map or the superblock changes no file |
| Volume.UnloadedInv | src/kern/fs/sfs/sfs_fs.c:119-124 | when every vnode in memory has been written out, the disk alone has all files |
| Volume.CreatedInv | src/kern/fs/sfs/sfs_vnode.c:761-783 | a new object takes one free block for its inode and keeps the invariant |
| Volume.CreatedFiles | src/kern/fs/sfs/sfs_vnode.c:761-783 | ... is empty, and no other file changes |
| Volume.ErasedInv | src/kern/fs/sfs/sfs_vnode.c:856-924 | giving back the inode block of a file without blocks keeps the invariant for the other files |
| Volume.ErasedFiles | src/kern/fs/sfs/sfs_vnode.c:856-924 | ... and touches no other file |
| Volume.TouchedInv | src/kern/fs/sfs/sfs_vnode.c:501-506 | changing the size or link count of a loaded inode changes only that file |
| Volume.WithRefsInv | src/kern/fs/vfs/vnode.c:59-98 | changing a reference count changes no file |
| Volume.DropIndirect | src/kern/fs/sfs/sfs_vnode.c:1135-1140 | giving back an indirect block without entries changes no byte of any file |
| Volume.ReleasesAllIff | src/kern/fs/sfs/sfs_vnode.c:1093-1133 | truncation releases every block past the new end if and only if the block just past the end is not a mapped indirect one: the strict comparison keeps that one |
| Volume.CutAll | src/kern/fs/sfs/sfs_vnode.c:1063-1157 | truncation to length 0 leaves no block in the file |
| Volume.AllReturned | src/kern/fs/sfs/sfs_vnode.c:856-924 | when a file is gone, the marked blocks are exactly those marked before that it did not own |
| Bitmap.BitMap.constructor | src/kern/lib/bitmap.c:30-64 | all bits of a new map are clear and the leftover bits of its last byte are set |
| Bitmap.BitMap.Alloc | src/kern/lib/bitmap.c:72-94 | the lowest clear bit is found and set, and failure means every bit is set |
| Bitmap.BitMap.Mark | src/kern/lib/bitmap.c:107-118 | exactly the named bit becomes set |
| Bitmap.BitMap.Unmark | src/kern/lib/bitmap.c:120-131 | exactly the named bit becomes clear |
| Bitmap.BitMap.IsSet | src/kern/lib/bitmap.c:134-142 | the answer is the bit |
| Bitmap.BitsSet | src/kern/lib/bitmap.c:107-118 | setting a bit of one byte sets that bit of the map and no other |
| Bitmap.BitsClear | src/kern/lib/bitmap.c:120-131 | clearing a bit of one byte clears that bit of the map and no other |
| Bitmap.BitsFull | src/kern/lib/bitmap.c:72-94 | a byte is 255 if and only if its eight bits are set, which justifies skipping it |
| Bitmap.BitWeight | src/kern/lib/bitmap.c:96-105 | bit k of a byte is the one of weight 2^k |
| UserIo.Uio.constructor | src/kern/userprog/uio.c:113-123 | a kernel descriptor describes the whole buffer |
| UserIo.Uio.Move | src/kern/userprog/uio.c:11-82 | min(n, residue) bytes go to or from the buffer, the descriptor advances by as many, and nothing else changes |
| UserIo.Uio.MoveZeros | src/kern/userprog/uio.c:84-108 | n zeros are delivered sixteen at a time |
| UserIo.SpliceTwice | src/kern/userprog/uio.c:11-82 | two adjacent transfers are one transfer |
| UserIo.Copy | src/kern/userprog/uio.c:45-55 | bytes move between two buffers or within one, in any overlap |
| Sfs.LoadMap | src/kern/fs/sfs/sfs_fs.c:39-73 | the free map read from the device is the bytes of its blocks in order |
| Sfs.Mount.constructor | src/kern/fs/sfs/sfs_fs.c:281-311 | the free map and the device's own contents are mounted, and a consistent volume makes a valid mount |
| Sfs.DoMount | src/kern/fs/sfs/sfs_fs.c:208-311 | EINVAL exactly for a wrong magic number; otherwise the blocks the superblock counts are mounted |
| Sfs.Mount.Balloc | src/kern/fs/sfs/sfs_vnode.c:60-78 | the lowest free block is taken and cleared; ENOSPC only when no block is free, and then nothing changes; the range panic is unreachable |
| Sfs.Mount.Bfree | src/kern/fs/sfs/sfs_vnode.c:83-89 | exactly that bit of the free map is cleared, and the map is marked as changed |
| Sfs.MetaKept | src/kern/fs/sfs/sfs_vnode.c:60-89 | no write of a file's block touches the superblock or the free map on the device |
| Sfs.Mount.Bmap | src/kern/fs/sfs/sfs_vnode.c:115-261 | the block of a file, allocated on demand without changing any file; EINVAL exactly past block 142; ENOSPC only on a full volume |
| Sfs.Mount.Fill | src/kern/fs/sfs/sfs_vnode.c:149-158 | an empty place gets a new block of its own, no other place and no file changes; ENOSPC only on a full volume |
| Sfs.Mount.BmapDirect | src/kern/fs/sfs/sfs_vnode.c:137-169 | the direct part of the block map |
| Sfs.Mount.BmapIndirect | src/kern/fs/sfs/sfs_vnode.c:171-261 | the indirect part of the block map, with the indirect block allocated on demand |
| Sfs.Mount.PartialIo | src/kern/fs/sfs/sfs_vnode.c:277-347 | part of a block is read or written and exactly as many bytes of the file or the buffer change as the offset advances |
| Sfs.Mount.Transfer | src/kern/fs/sfs/sfs_vnode.c:300-346 | the block is read, partly replaced and written back |
| Sfs.Mount.BlockIo | src/kern/fs/sfs/sfs_vnode.c:352-412 | a whole block is transferred through the descriptor with its residue and offset replaced for the device and restored afterwards |
| Sfs.Mount.WholeBlock | src/kern/fs/sfs/sfs_vnode.c:352-412 | a whole block through the device, in the terms of the file |
| Sfs.Mount.RwBlock | src/kern/fs/sfs/sfs_io.c:17-55 | one sector moves between a reliable device and the buffer |
| Sfs.Mount.IoWhole | src/kern/fs/sfs/sfs_vnode.c:475-485 | the loop over whole blocks transfers a prefix of the range, all of it unless an error is returned |
| Sfs.Mount.IoBlocks | src/kern/fs/sfs/sfs_vnode.c:447-499 | leading part, whole blocks and trailing part together transfer one contiguous prefix of the range |
| Sfs.Mount.IoAligned | src/kern/fs/sfs/sfs_vnode.c:475-497 | whole blocks and a trailing part |
| Sfs.Mount.Leading | src/kern/fs/sfs/sfs_vnode.c:450-473 | the leading part of a block, after which the offset is at a block boundary or nothing is left |
| Sfs.Mount.ReadBlocks | src/kern/fs/sfs/sfs_vnode.c:447-497 | the reading half of the transfer, bounded by the block map |
| Sfs.Mount.GrowTo | src/kern/fs/sfs/sfs_vnode.c:501-506 | the size grows to the new offset if that is larger |
| Sfs.Mount.SetLinks | src/kern/fs/sfs/sfs_vnode.c:1259-1261 | only the link count of that file changes |
| Sfs.Spent | src/kern/fs/sfs/sfs_vnode.c:115-261 | a transfer inside one block takes no blocks but that one and the indirect one |
| Sfs.NoSpace | src/kern/fs/sfs/sfs_vnode.c:115-261 | if it runs out of space, at most one block was free before |
| Sfs.Mount.ReadIo | src/kern/fs/sfs/sfs_vnode.c:417-513 | a read ends at offset + n or at the end of file, or where the block map ends before that, and returns EINVAL only there; nothing moves at or past the end of file; exactly the bytes on the way are in the buffer, holes as zeros, every other byte of it is as before, and no file changes |
| Sfs.Mount.WriteIo | src/kern/fs/sfs/sfs_vnode.c:417-513 | a write changes exactly the bytes counted by the advance of uio_offset, sets size = max(size, new offset) and leaves every other file alone, also on ENOSPC and EINVAL; no mapped block moves, and only blocks in the range and the indirect one become mapped |
| Sfs.ReadMeans | src/kern/fs/sfs/sfs_vnode.c:424-445 | cutting the request at the end of file and stopping where the block map ends is that read, told by sizes and bytes |
| Sfs.WriteMeans | src/kern/fs/sfs/sfs_vnode.c:501-506 | ... and the same for a write |
| Sfs.GrownWrite | src/kern/fs/sfs/sfs_vnode.c:447-506 | moving the bytes and then the size is the write |
| Sfs.ReadOutcome | src/kern/fs/sfs/sfs_vnode.c:417-513 | how far a read reaches and which error it returns, told by offset and length |
| Sfs.Mount.Truncate | src/kern/fs/sfs/sfs_vnode.c:1063-1157 | size becomes len, every byte before len is as it was and every block that begins before len stays where it was; exactly the blocks the code cuts off become holes, other files do not change, and length 0 releases every block |
| Sfs.KeptPlaces | src/kern/fs/sfs/sfs_vnode.c:1081-1133 | cutting from the rounded-up length on keeps the block of every place that begins before the new end |
| Sfs.KeptBytes | src/kern/fs/sfs/sfs_vnode.c:1081-1133 | ... and every byte before it |
| Sfs.Mount.CutDirect | src/kern/fs/sfs/sfs_vnode.c:1089-1100 | the direct blocks at or past the new end are released and no others; KeptPlaces says what that leaves |
| Sfs.Mount.CutIndirect | src/kern/fs/sfs/sfs_vnode.c:1102-1148 | the entries strictly past the new end are released, and the indirect block with the last of them |
| Sfs.Mount.CutEntries | src/kern/fs/sfs/sfs_vnode.c:1120-1133 | the loop over the entries of the indirect block |
| Sfs.Mount.DropIndirectBlock | src/kern/fs/sfs/sfs_vnode.c:1135-1140 | an indirect block without entries is given back |
| Sfs.Mount.Release | src/kern/fs/sfs/sfs_vnode.c:83-89 | one block leaves its place and the free map, all else stays |
| Sfs.Mount.Search | src/kern/fs/sfs/sfs_vnode.c:1555-1578 | the table search finds a loaded inode exactly when it is loaded; its panic about unallocated inodes is unreachable |
| Sfs.Mount.LoadVnode | src/kern/fs/sfs/sfs_vnode.c:1545-1651 | an existing file ends up loaded once, with one more reference, and no file changes; ENOMEM exactly when it is not loaded and there is no memory; the panics about unallocated blocks and invalid types are unreachable |
| Sfs.Mount.MakeObj | src/kern/fs/sfs/sfs_vnode.c:761-783 | a new inode number outside all existing files and an empty file of the given type, or ENOSPC and no change; without memory for the vnode no file changes and the inode block is lost, for every set of files and owners |
| Sfs.Mount.NewVnode | src/kern/fs/sfs/sfs_vnode.c:1580-1650 | a cleared block becomes the inode of an empty file of the type asked for, and no other file changes |
| Sfs.Mount.SyncInode | src/kern/fs/sfs/sfs_vnode.c:38-51 | the inode goes to disk, every file and the free map stay as they are |
| Sfs.Mount.Decref | src/kern/fs/vfs/vnode.c:73-98 | the last reference reclaims the vnode; a file without links disappears with it, any other survives unchanged |
| Sfs.Mount.Reclaim | src/kern/fs/sfs/sfs_vnode.c:856-924 | an unlinked file gives back every block it owned and nothing else; a linked one keeps all its contents |
| Sfs.Mount.Discard | src/kern/fs/sfs/sfs_vnode.c:882-924 | a file without links is cut to nothing, written out and erased |
| Sfs.Mount.ClearAndSync | src/kern/fs/sfs/sfs_vnode.c:882-894 | truncation to 0 followed by the inode write |
| Sfs.Mount.Erase | src/kern/fs/sfs/sfs_vnode.c:896-924 | the inode block is freed and the file is gone |
| Sfs.Mount.Forget | src/kern/fs/sfs/sfs_vnode.c:901-924 | a clean vnode leaves the table and no file changes |
| Sfs.Mount.RemoveVnode | src/kern/fs/sfs/sfs_vnode.c:901-915 | the vnode is found in the table and taken out; its panic is unreachable |
| Sfs.Mount.SyncVnodes | src/kern/fs/sfs/sfs_fs.c:119-124 | every vnode in memory is written out, and no file changes |
| Sfs.Mount.StoreMap | src/kern/fs/sfs/sfs_fs.c:39-73 | the free map in memory is on the device afterwards, and no file changes |
| Sfs.Mount.Sync | src/kern/fs/sfs/sfs_fs.c:80-145 | the device then holds a consistent volume with all files exactly as they are, although the map is only written when it is marked as changed |
| Sfs.Mount.Unmount | src/kern/fs/sfs/sfs_fs.c:165-192 | EBUSY exactly when a vnode is in memory; the device holds all files, and the assertions about the dirty flags never fail |
| Directory.SlotRoundTrip | src/kern/include/kern/sfs.h:57-60 | a directory entry with a name of up to 59 bytes reads back as written |
| Directory.SlotLayout | src/kern/include/kern/sfs.h:57-60 | an entry is the inode number as a big-endian word, the name, and zeros |
| Directory.WriteSlot | src/kern/fs/sfs/sfs_vnode.c:556-584 | writing 64 bytes at a slot's place changes exactly that slot of the directory |
| Directory.LinkNames | src/kern/fs/sfs/sfs_vnode.c:664-703 | filling a free slot with a new name adds exactly that name and keeps names unique |
| Directory.UnlinkNames | src/kern/fs/sfs/sfs_vnode.c:708-720 | freeing a slot removes exactly its name |
| Directory.CountPut | src/kern/fs/sfs/sfs_vnode.c:1243-1297 | how the number of slots naming an inode changes with one slot |
| Directory.LinksBounded | src/kern/fs/sfs/sfs_vnode.c:1259-1261 | a link count cannot overflow its 16 bits: the directory does not have that many slots |
| Directory.LinkInv | src/kern/fs/sfs/sfs_vnode.c:1243-1264 | an entry and one more link together keep names unique and link counts equal to the number of naming slots |
| Directory.UnlinkInv | src/kern/fs/sfs/sfs_vnode.c:1269-1297 | freeing an entry and one link fewer together keep them too |
| Directory.NewFileInv | src/kern/fs/sfs/sfs_vnode.c:1214-1225 | a file without links may exist while its vnode is loaded |
| Directory.EraseInv | src/kern/fs/sfs/sfs_vnode.c:882-899 | a file without links is named by no slot, so it may go |
| Directory.NamedFile | src/kern/fs/sfs/sfs_vnode.c:726-752 | a name found in the directory leads to a regular file with links, so the panic about a dead inode is unreachable |
| Directory.FilesKnown | src/kern/fs/sfs/sfs_vnode.c:761-783 | which files there are follows from the directory and the vnodes in memory |
| Directory.Leaked | src/kern/fs/sfs/sfs_vnode.c:761-783 | a block that is allocated and then held nowhere is lost: for no set of files and no assignment of owners are the free map and the directory both right |
| Directory.ContentsInv | src/kern/fs/sfs/sfs_vnode.c:941-948 | writing or truncating a regular file does not concern the directory |
| Directory.LoadInv | src/kern/fs/sfs/sfs_vnode.c:1545-1651 | loading more vnodes keeps the directory's invariant |
| Directory.UnloadInv | src/kern/fs/sfs/sfs_vnode.c:901-924 | unloading a vnode whose file has links keeps it |
| SfsDir.ReadDir | src/kern/fs/sfs/sfs_vnode.c:523-550 | a slot is read as it was last written; the short-entry panic is unreachable |
| SfsDir.WriteDir | src/kern/fs/sfs/sfs_vnode.c:556-584 | the slot is written or no file changes at all; overwriting a live slot cannot fail; ENOSPC only on a volume that is full and had at most one free block, EINVAL only for the slot past the end of the block map |
| SfsDir.SlotNoSpace | src/kern/fs/sfs/sfs_vnode.c:556-584 | writing a slot can use up two blocks at most |
| SfsDir.WriteEntry | src/kern/fs/sfs/sfs_vnode.c:556-584 | 64 bytes at an offset of the directory, as far as the write gets |
| SfsDir.FindName | src/kern/fs/sfs/sfs_vnode.c:614-658 | the slot and inode of a name if it is there, and some free slot if there is one; the duplicate-name panic is unreachable |
| SfsDir.NEntries | src/kern/fs/sfs/sfs_vnode.c:591-606 | the number of slots; the checks on type and size never fail |
| SfsDir.DirLink | src/kern/fs/sfs/sfs_vnode.c:664-703 | a new name of up to 59 bytes is linked, in a free slot or at the end, unless the volume is full and had at most one free block, or all 1144 slots are live; EEXIST exactly for a present name, ENAMETOOLONG exactly for a name over 59 bytes, and no change on any error |
| SfsDir.DirUnlink | src/kern/fs/sfs/sfs_vnode.c:708-720 | unlinking a live slot cannot fail and clears exactly that slot |
| SfsDir.AddLink | src/kern/fs/sfs/sfs_vnode.c:1220-1231 | an entry and a link together, or an error and no change, with the errors of DirLink and under the same conditions |
| SfsDir.DropLink | src/kern/fs/sfs/sfs_vnode.c:1284-1291 | a live entry and a link fewer together |
| SfsDir.Release | src/kern/fs/vfs/vnode.c:73-98 | giving up a reference keeps the directory's invariant; an unlinked file vanishes with the last one |
| SfsDir.LookOnce | src/kern/fs/sfs/sfs_vnode.c:726-752 | ENOENT exactly for an absent name, ENOMEM exactly for a file that is not loaded without memory for its vnode, otherwise its file is loaded with one more reference; no file and no block moves |
| SfsDir.Creat | src/kern/fs/sfs/sfs_vnode.c:1183-1236 | a new empty file with one link and exactly one more name, or the existing file, or an error and no file changed: the block taken for the inode has come back, except without memory for the vnode, when it is lost. With memory a new name of up to 59 bytes fails only when at most two blocks were free or all 1144 slots are live |
| SfsDir.NewFile | src/kern/fs/sfs/sfs_vnode.c:1214-1235 | the creation proper: object, entry, link, or everything undone, and when each error comes; without memory ENOSPC, or ENOMEM and the block lost |
| SfsDir.MakeFile | src/kern/fs/sfs/sfs_vnode.c:1211-1218 | the empty object: one free block fewer, or ENOSPC exactly on a full volume |
| SfsDir.Link | src/kern/fs/sfs/sfs_vnode.c:1243-1264 | exactly one more name and one more link for that file, or no change, with the errors of DirLink and under the same conditions |
| SfsDir.Remove | src/kern/fs/sfs/sfs_vnode.c:1269-1297 | ENOENT and ENOMEM exactly as for a lookup; otherwise exactly one name fewer and one link fewer, and the file vanishes with its last name unless it is loaded |
| SfsDir.Rename | src/kern/fs/sfs/sfs_vnode.c:1305-1379 | on success only the two names change and every link count is as before; on failure nothing changes, with ENOENT, ENOMEM, EEXIST and ENAMETOOLONG told exactly, and ENOSPC and EINVAL only when there is no block or no slot for the new name; the recovery panics are unreachable |
| SfsDir.RenamedNames | src/kern/fs/sfs/sfs_vnode.c:1305-1379 | linking the new name and unlinking the old is exactly the renaming of the name map |
| SfsDir.GetRoot | src/kern/fs/sfs/sfs_vnode.c:1657-1670 | after mounting, the root directory is loaded and the whole invariant holds |
| SfsDir.WriteFile | src/kern/fs/sfs/sfs_vnode.c:941-948 | exactly the bytes from the buffer up to the new offset change; ENOSPC only when the volume is full, EINVAL only past the block map; the directory and all other files stay |
| SfsDir.TruncateFile | src/kern/fs/sfs/sfs_vnode.c:1063-1157 | size becomes len and the bytes before it stay; the directory and all other files stay, and exactly the places the code cuts are released |
| SfsDir.SyncFile | src/kern/fs/sfs/sfs_vnode.c:1041-1047 | fsync changes no file and keeps the invariant |
| SfsDir.SyncAll | src/kern/fs/sfs/sfs_fs.c:80-145 | sync keeps the directory's invariant and leaves the whole volume on the device |
| SfsDir.Run | src/kern/fs/sfs/sfs_vnode.c:1183-1379 | after any run of creat, link, remove, rename, lookup, write, truncate, fsync, sync and reference drops, names are unique, link counts are right and every marked block has one owner |
| Mksfs.DoAllocBit | src/sbin/mksfs/mksfs.c:75-84 | exactly the named bit becomes set |
| Mksfs.FillBitmap | src/sbin/mksfs/mksfs.c:86-108 | the bits set are exactly the superblock, the root inode, the free map and everything past the end |
| Mksfs.WriteMap | src/sbin/mksfs/mksfs.c:109-113 | the buffer lands in the blocks of the free map and nowhere else |
| Mksfs.Format | src/sbin/mksfs/mksfs.c:116-165 | it succeeds exactly when the name and the free map fit; then the superblock tells magic number, size and name, and the image satisfies the whole invariant with the empty root directory as its only file; blocks outside the reserved ones are not touched, and all of them are free |
| Mksfs.NameRoundTrip | src/sbin/mksfs/mksfs.c:39-56 | the volume name stands at byte 8 of the superblock and reads back, for every name that fits |
| Mksfs.FreshVolume | src/sbin/mksfs/mksfs.c:58-114 | with only the reserved bits set, the root inode is the one owned block |
| Mksfs.FreshRoom | src/sbin/mksfs/mksfs.c:86-108 | how many blocks of a fresh volume are free |
| Sessions.Close | src/kern/fs/vfs/vnode.c:73-98 | when every reference to a file is given up, it stays as it is or, without links, goes |
| Sessions.CloseAll | src/kern/fs/vfs/vnode.c:73-98 | when everything is closed, exactly the files with a link are left, as they were and under the same names |
| Sessions.MountAgain | src/kern/fs/sfs/sfs_fs.c:208-311 | mounting a device that holds a consistent volume shows its files |
| Sessions.Remount | src/kern/fs/sfs/sfs_fs.c:80-311 | closing everything, unmounting and mounting again: exactly the files with a link are there, with the same contents, sizes, link counts and names |
| Sessions.FirstFile | src/kern/fs/sfs/sfs_vnode.c:1183-1236 | on a fresh volume with three free blocks, after mounting, the creation of a file of any name that fits succeeds |
| Sessions.TakenAway | src/kern/fs/sfs/sfs_fs.c:80-145 | a device taken away after sync with files in use shows every file as it was, and its directory is right if and only if every file has a link |
| Sessions.NoOrphans | src/kern/fs/sfs/sfs_vnode.c:856-924 | without the vnodes in memory the directory's invariant holds if and only if no file is without links |
| Sessions.Sessions | src/sbin/mksfs/mksfs.c:116-165 | format, and then any number of times mount, any run of calls, close and unmount: every mount finds exactly the files with links that the calls before it left, and the invariant holds all along |
| TruncateRun.TruncateKeeps | src/kern/fs/sfs/sfs_vnode.c:1121-1133 | a consistent volume is mounted, its file looked up and truncated, and the block past the new end is still mapped |
| KernelHeap.LiveDisjoint | src/kern/lib/kheap.c:350-460 | live blocks are pairwise disjoint and at least as large as asked for |
| KernelHeap.LiveApartFromBig | src/kern/lib/kheap.c:545-563 | subpage blocks and whole-page allocations never overlap |
| KernelHeap.TakeInv | src/kern/lib/kheap.c:380-409 | taking the first free block of a page keeps the heap's invariant: acyclic in-page free lists of exactly nfree entries, free and live blocks tiling each page, lists that partition |
| KernelHeap.GiveInv | src/kern/lib/kheap.c:518-526 | putting a live block back on its page's list keeps it, up to the page being all free |
| KernelHeap.FullPage | src/kern/lib/kheap.c:528-534 | when nfree reaches the capacity, no block of the page is live |
| KernelHeap.RetireInv | src/kern/lib/kheap.c:528-534 | taking an all-free page off both lists and freeing its pageref restores the invariant |
| KernelHeap.AddInv | src/kern/lib/kheap.c:431-456 | threading a fresh page and pushing it on both lists keeps the invariant |
| KernelHeap.ThreadChain | src/kern/lib/kheap.c:440-450 | the loop threads an acyclic list through exactly the blocks of the page and writes nowhere else |
| KernelHeap.WriteInv | src/kern/lib/kheap.c:20-30 | whatever a caller writes into a block it holds, the heap's invariant survives |
| KernelHeap.WriteBigInv | src/kern/lib/kheap.c:545-563 | the same for a whole-page allocation |
| KernelHeap.BigInv | src/kern/lib/kheap.c:545-563 | a whole-page allocation of fresh pages keeps the invariant |
| KernelHeap.BigFreeInv | src/kern/lib/kheap.c:565-577 | freeing one keeps it |
| KernelHeap.RouteLive | src/kern/lib/kheap.c:481-492 | the page search of kfree matches exactly the page of a live block |
| KernelHeap.RouteBig | src/kern/lib/kheap.c:481-498 | it matches no page for a whole-page allocation |
| KernelHeap.PageBusy | src/kern/lib/kheap.c:528-534 | every page the heap keeps has a live block on it |
| KernelHeap.AllReturned | src/kern/lib/kheap.c:528-534 | when every block has been freed, so has every page and every pageref |
| Kheap.PageRefMap.constructor | src/kern/lib/kheap.c:107-108 | no pageref is in use at first |
| Kheap.PageRefMap.Alloc | src/kern/lib/kheap.c:110-133 | the lowest free pageref, or NULL exactly when all 256 are in use |
| Kheap.PageRefMap.Free | src/kern/lib/kheap.c:135-148 | exactly that pageref becomes free |
| Kheap.KHeap.constructor | src/kern/lib/kheap.c:152-153 | the empty heap satisfies the invariant |
| Kheap.KHeap.BlockType | src/kern/lib/kheap.c:332-348 | the smallest block size that fits, which is 16 or less than twice the request |
| Kheap.RoomIff | src/kern/lib/kheap.c:372-403 | there is room for a size exactly when some page of that size has a block that is not live |
| Kheap.KHeap.FindRoom | src/kern/lib/kheap.c:372-378 | a page of the type with a free block, or none exactly when there is none |
| Kheap.KHeap.Take | src/kern/lib/kheap.c:380-409 | a block that was not live becomes live, all else stays; its assertions hold |
| Kheap.KHeap.ThreadBlocks | src/kern/lib/kheap.c:440-447 | the free list of a fresh page, block by block |
| Kheap.KHeap.AddPage | src/kern/lib/kheap.c:431-456 | the new page as the value model describes it |
| Kheap.KHeap.TakeNew | src/kern/lib/kheap.c:431-459 | a block from a page just added; held allocations keep their contents |
| Kheap.KHeap.SubpageKmalloc | src/kern/lib/kheap.c:350-460 | NULL exactly when no page has room and there is no pageref or no page, and then nothing changes; otherwise one more live block of the size asked for and all held allocations keep their contents |
| Kheap.KHeap.RemoveSame | src/kern/lib/kheap.c:307-320 | the pageref is unlinked from the list of its size |
| Kheap.KHeap.RemoveAll | src/kern/lib/kheap.c:322-329 | the pageref is unlinked from the list of all pages |
| Kheap.KHeap.FindPage | src/kern/lib/kheap.c:481-498 | the page of a live block, none for a whole-page allocation |
| Kheap.KHeap.FillDeadbeef | src/kern/lib/kheap.c:6-16 | every word of the block is 0xdeadbeef, and nothing outside it changes |
| Kheap.KHeap.Retire | src/kern/lib/kheap.c:529-534 | an all-free page leaves lists and bitmap |
| Kheap.KHeap.SubpageKfree | src/kern/lib/kheap.c:462-540 | exactly that block stops being live, every other allocation keeps its contents, and -1 exactly for what is no subpage block |
| Kheap.KHeap.Kmalloc | src/kern/lib/kheap.c:545-563 | requests of 2048 bytes and more get whole pages, others a block; every held allocation keeps its contents |
| Kheap.KHeap.Kfree | src/kern/lib/kheap.c:565-577 | every pointer goes back to the allocator it came from, NULL is ignored, and every other allocation keeps its contents |
| HeapRun.UnderFresh | src/kern/arch/mips/mips/ram.c:63-77 | the next pages of memory overlap nothing the heap has been given |
| HeapRun.HeldApart | src/kern/lib/kheap.c:545-577 | any two allocations a caller holds are apart, whatever their kinds |
| HeapRun.Client.constructor | src/kern/arch/mips/mips/dumbvm.c:43-52 | a caller with an empty heap over fresh memory |
| HeapRun.Client.Malloc | src/kern/lib/kheap.c:545-563 | the new pointer joins those held with at least the size asked for, and all stored words stay; a large request succeeds exactly when its pages fit, a small one whenever there is a page and a free pageref |
| HeapRun.Client.Free | src/kern/lib/kheap.c:565-577 | exactly that pointer leaves, and every word stored outside its block stays |
| HeapRun.Client.Store | src/kern/lib/kheap.c:20-30 | a caller's write to any word of what it holds disturbs neither the heap nor other words |
| HeapRun.Client.Run | src/kern/lib/kheap.c:350-577 | after any run of kmalloc, kfree and writes anywhere in held blocks, the pointers held are exactly the allocations, pairwise apart, and every stored word is there |
| HeapRun.Client.Drain | src/kern/lib/kheap.c:526-534 | freeing everything returns every page |
| CatMouse.InitInv | src/kern/asst1/catlock.c:145-177 | the initial state satisfies the protocol's invariant |
| CatMouse.StepInv | src/kern/asst1/catlock.c:302-594 | every step of every animal keeps the invariant, and the wait for an empty dish is never entered |
| CatMouse.RunInv | src/kern/asst1/catlock.c:302-594 | the invariant holds in every reachable state |
| CatMouse.EnterInv | src/kern/asst1/catlock.c:302-357 | an admitted animal sits down at a dish of its own and the invariant holds |
| CatMouse.LeaveInv | src/kern/asst1/catlock.c:571-594 | an animal that leaves, passing the turn or not, keeps the invariant |
| CatMouse.EaterHasTurn | src/kern/asst1/catlock.c:302-357 | whoever eats is of the kind whose turn it is |
| CatMouse.NoDishWaiter | src/kern/asst1/catlock.c:582-588 | the signal for an empty dish never has a waiter to wake |
| CatMouse.Safety | src/kern/asst1/catlock.c:264-286 | in every reachable state no cat and mouse eat together, no dish is shared, and nobody admitted waits for a dish |
| CatMouse.DishForAdmitted | src/kern/asst1/catlock.c:536-546 | whoever is admitted finds an empty dish |
| CatMouse.Progress | src/kern/asst1/catlock.c:302-460 | in every state with an animal not done some step is enabled |
| CatMouse.SomeoneMoves | src/kern/asst1/catlock.c:373-460 | the kind that has the turn has an animal that can move |
| CatMouse.StepRank | src/kern/asst1/catlock.c:302-594 | a natural-number rank decreases at every step, wakeups included |
| CatMouse.RunBound | src/kern/asst1/catlock.c:302-594 | the steps taken and the rank left never exceed the initial rank |
| CatMouse.LeavesOnce | src/kern/asst1/catlock.c:571-594 | an animal finishes eating exactly once |
| CatMouse.StepDone | src/kern/asst1/catlock.c:571-594 | only leaving makes an animal done, and only once |
| CatMouse.AllFed | src/kern/asst1/catlock.c:618-661 | every run of N animals has at most N(N + 2) steps, and one that cannot continue has fed every animal exactly once |
| CatMouse.TurnBound | src/kern/asst1/catlock.c:373-460 | while the other kind waits, one turn admits at most TURN_COUNT animals |
| CatMouse.AdmitCounts | src/kern/asst1/catlock.c:302-357 | the admission counter of a turn counts exactly the admissions |
| Guardian.Guardian.constructor | src/kern/asst1/catlock.c:145-177 | the global state starts as the protocol's initial state |
| Guardian.Guardian.GetEmptyDish | src/kern/asst1/catlock.c:264-286 | the first empty dish, or -1 when there is none |
| Guardian.Guardian.Broadcast | src/kern/asst1/catlock.c:373-460 | everybody asleep for that turn wakes |
| Guardian.Guardian.ClearTurnCounters | src/kern/asst1/catlock.c:118-130 | the counters of the turn are 0 |
| Guardian.Guardian.Enter | src/kern/asst1/catlock.c:302-357 | the wait test and the taking of a dish are one protocol step; the assertions hold |
| Guardian.Guardian.Petition | src/kern/asst1/catlock.c:512-553 | an arrival is one protocol step |
| Guardian.Guardian.CatEndTurnLogic | src/kern/asst1/catlock.c:373-409 | the end of a cat's turn as the protocol describes it |
| Guardian.Guardian.MouseEndTurnLogic | src/kern/asst1/catlock.c:426-460 | the end of a mouse's turn as the protocol describes it |
| Guardian.Guardian.ReturnDish | src/kern/asst1/catlock.c:571-594 | returning a dish is one protocol step |
| PidTable.TakenAll | src/kern/thread/pid_manager.c:91-97 | the count of taken slots is 100 if and only if every slot is taken |
| PidTable.CircAll | src/kern/thread/pid_manager.c:100-110 | going round from any pid meets every pid |
| PidTable.AddInv | src/kern/thread/pid_manager.c:280-338 | adding a process for any parent number keeps slots and blocks paired, the count exact and every family intact |
| PidTable.LeftInv | src/kern/thread/pid_manager.c:341-389 | an exit keeps all of that for the processes that remain, if the blocks of the exiting process's children are there, which the invariant says of every process but the first |
| PidTable.ChildKept | src/kern/thread/pid_manager.c:70-87 | the block of a child whose parent has not exited outlives every other process's exit |
| PidTable.NextChild | src/kern/thread/pid_manager.c:364-374 | in the exit traversal the next child's block is allocated, and is destroyed exactly when that child has exited |
| PidTable.OwnBlock | src/kern/thread/pid_manager.c:376-381 | the exiting process's own block is destroyed exactly when no living parent with a pid of 2 or more keeps it |
| PidTable.FreedSwept | src/kern/thread/pid_manager.c:368-373 | destroying one more block is the sweep of a larger set, so none is destroyed twice |
| PidManager.Manager.constructor | src/kern/thread/pid_manager.c:422-449 | the empty table satisfies the invariant |
| PidManager.Manager.PidBlock | src/kern/thread/pid_manager.c:35-45 | the block in the slot of a pid, none for a pid out of range |
| PidManager.Manager.Destroy | src/kern/thread/pid_manager.c:178-193 | the slot is empty, the block is gone and the count is one less |
| PidManager.Manager.ScanFree | src/kern/thread/pid_manager.c:91-122 | the first free pid in circular order from next_pid; -1 if and only if all 100 are taken |
| PidManager.Manager.Add | src/kern/thread/pid_manager.c:280-338 | EAGAIN exactly on a full table, ENOMEM and no change when the parent's list cannot grow; otherwise the new process in the first free slot, recorded with its parent; the panic is unreachable |
| PidManager.Manager.Exit | src/kern/thread/pid_manager.c:341-389 | the exited children and, unless kept, the process itself are destroyed, each allocated at that moment; EINVAL exactly for a free pid |
| PidManager.Manager.WaitBegin | src/kern/thread/pid_manager.c:391-408 | EINVAL exactly when the pid is not a child of the caller; sleep exactly when it has not exited |
| PidManager.Manager.WaitEnd | src/kern/thread/pid_manager.c:410-412 | the status in the slot |
| PidRun.NextInv | src/kern/thread/pid_manager.c:280-417 | every step of any interleaving of adds, exits and waits keeps the invariant, with pids and addresses reused |
| PidRun.SpawnInv | src/kern/thread/pid_manager.c:280-338 | a new process gets a serial of its own and no waiter is disturbed |
| PidRun.ExitInv | src/kern/thread/pid_manager.c:341-389 | an exit records the status, wakes the waiters of that block and keeps what they wait for |
| PidRun.WaitInv | src/kern/thread/pid_manager.c:391-408 | a process that goes to sleep waits for the block in its child's slot |
| PidRun.RunInv | src/kern/thread/pid_manager.c:280-417 | it holds in every state of every run |
| PidRun.WaitStatus | src/kern/thread/pid_manager.c:391-417 | over any run, a process with a pid of 2 or more that returns from a sleep in wait_pid reads the status its own child exited with |
| PidRun.WaitAtOnce | src/kern/thread/pid_manager.c:391-417 | a wait that does not sleep reads the status that process exited with |
| PidRun.DiesOnce | src/kern/thread/pid_manager.c:341-389 | the history of exit statuses is written once per process |
| PidRun.WaiterServed | src/kern/thread/pid_manager.c:70-87 | the block of a child that exits under a sleeping parent stays for it if and only if the parent is not process 1 |
| PidRun.FirstWaiter | src/kern/thread/pid_manager.c:78-80 | a run in which process 1 sleeps for its child, is woken to an empty slot and keeps a pointer to the destroyed block |
| PidReap.ListedBy | src/kern/thread/pid_manager.c:313-323 | a process that has a block in its list of children is that block's parent and sits in the parent's slot |
| PidReap.ExitLost | src/kern/thread/pid_manager.c:70-87 | when nothing was lost before, an exit leaves a block that nobody will destroy if and only if the parent's slot is held by a process other than the one that started the exiting process |
| PidReap.OwnFate | src/kern/thread/pid_manager.c:376-381 | the block lost is then the exiting process's own |
| PidReap.AddLost | src/kern/thread/pid_manager.c:280-338 | a new process neither loses nor recovers a block |
| PidReap.NewListed | src/kern/thread/pid_manager.c:313-323 | a new process is in the list of the process that started it |
| PidReap.ExitKeepsLost | src/kern/thread/pid_manager.c:362-374 | no exit recovers a block that is lost |
| PidReap.StepLost | src/kern/thread/pid_manager.c:280-417 | the same for every step of an interleaving |
| PidReap.Reaped | src/kern/thread/pid_manager.c:341-389 | over any run, every exited process's block still has someone to destroy it if and only if no process has exited while its parent's pid belonged to another process |
| PidReap.LosesOrphan | src/kern/thread/pid_manager.c:70-122 | a run through the code in which the pids go round once and an orphan's block is lost |
| Synch.WaitCode | src/kern/thread/synch.c:246-262 | cv_wait is lock_release, a sleep and lock_acquire inside one spl pair |
| Synch.NextInv | src/kern/thread/synch.c:60-304 | every instruction, call, preemption, dispatch and fork keeps the invariant |
| Synch.TakeCountInv | src/kern/thread/synch.c:74-79 | the test and decrement of P, or its sleep, keeps the invariant |
| Synch.AddCountInv | src/kern/thread/synch.c:88-91 | the increment of V leaves the wakeup as the next step |
| Synch.TakeOwnerInv | src/kern/thread/synch.c:144-153 | claiming a lock, or sleeping for it, keeps the invariant |
| Synch.ClearOwnerInv | src/kern/thread/synch.c:176-179 | clearing the owner leaves the wakeup as the next step |
| Synch.WakeAllInv | src/kern/thread/thread.c:548-576 | waking all sleepers of an address keeps the invariant |
| Synch.WakeOneInv | src/kern/thread/thread.c:582-611 | waking one keeps it |
| Synch.SleepInv | src/kern/thread/thread.c:533-542 | going to sleep with the spl high keeps it |
| Synch.CallInv | src/kern/thread/synch.c:60-304 | beginning a call keeps it |
| Synch.PreemptInv | src/kern/thread/thread.c:510-520 | a preemption happens only outside every spl pair |
| Synch.DispatchInv | src/kern/thread/thread.c:418-425 | a thread resumes with the spl level it must have |
| Synch.ForkInv | src/kern/thread/thread.c:639-650 | a new thread starts by restoring the spl to 0 |
| Synch.RunInv | src/kern/thread/synch.c:60-304 | it holds in every state of every interleaving of any number of threads |
| Synch.NoLostWakeup | src/kern/thread/synch.c:60-184 | a positive semaphore has no sleepers and an unowned lock has none, except between the change and the wakeup in the same interrupt-free section |
| Synch.MutualExclusion | src/kern/thread/synch.c:133-184 | at most one thread is between lock_acquire and lock_release, and it is the owner |
| Synch.Conservation | src/kern/thread/synch.c:60-93 | count + returned P + P past the decrement = initial + returned V + V past the increment, always; at most one such call is under way and none while interrupts are on, when count = initial + returned V - returned P |
| Synch.ReleaseAndSleep | src/kern/thread/synch.c:246-262 | to every other thread, releasing the lock and sleeping in cv_wait are one step |
| Synch.SignalReaches | src/kern/thread/synch.c:264-283 | a signal sent while threads wait wakes exactly one of them |
| Synch.BroadcastReaches | src/kern/thread/synch.c:285-304 | a broadcast wakes all of them |
| Synch.SignalCall | src/kern/thread/synch.c:264-283 | in every interleaving, a whole call of cv_signal, from its start to its return, wakes exactly one thread waiting on the condition variable if there is one; the caller changes nobody else's waiting, and nothing changes between the wakeup and the return |
| Synch.BroadcastCall | src/kern/thread/synch.c:285-304 | in every interleaving, when a call of cv_broadcast returns exactly those wait who waited on other condition variables when it woke, and all it woke are ready |
| Synch.WakeupOf | src/kern/thread/synch.c:264-304 | each such call has exactly one step in which it can wake, and it comes before the return |
| Synch.OwnStep | src/kern/thread/synch.c:264-304 | a thread goes through a call one instruction after another, and only by its own steps |
| Synch.EndStep | src/kern/thread/synch.c:281-303 | from the wakeup to the return interrupts are off, so no other thread runs |
| Threads.OnePlace | src/kern/thread/thread.c:26-36 | every thread is in exactly one of run queue, sleepers, zombies and current |
| Threads.SplitAll | src/kern/thread/thread.c:548-576 | waking splits the sleepers into the woken and the rest, losing and adding none |
| Threads.SplitWho | src/kern/thread/thread.c:548-576 | the woken are exactly those asleep on the address |
| Threads.SplitOrder | src/kern/thread/thread.c:548-576 | those woken keep their order, and so do those left asleep |
| Threads.ThreadSystem.constructor | src/kern/thread/thread.c:171-223 | one current thread, counted |
| Threads.ThreadSystem.MakeRunnable | src/kern/thread/scheduler.c:111-118 | the thread goes to the tail of the run queue |
| Threads.ThreadSystem.Reserve | src/kern/thread/thread.c:291-308 | storage for one thread more everywhere, or a failure; no list changes |
| Threads.ThreadSystem.Launch | src/kern/thread/thread.c:310-327 | the new thread is runnable and counted |
| Threads.ThreadSystem.Fork | src/kern/thread/thread.c:282-333 | the new thread joins the tail of the run queue and is counted, with the storage of sleepers and run queue raised to the count; a failure leaves all lists as they were |
| Threads.ThreadSystem.StashReady | src/kern/thread/thread.c:397-416 | a yielding thread goes to the tail of the run queue; after a fork the queue is full, and has to grow, if and only if no thread sleeps and there are as many threads as places |
| Threads.ThreadSystem.Sleep | src/kern/thread/thread.c:533-542 | a sleeping thread joins the sleepers; it fails exactly when their array is full and cannot grow, and after the first fork it neither fails nor allocates |
| Threads.ThreadSystem.AfterSleep | src/kern/thread/thread.c:533-542 | a woken thread clears its sleep address |
| Threads.ThreadSystem.ExitThread | src/kern/thread/thread.c:500-505 | an exiting thread becomes a zombie and is no longer counted; it fails exactly when the zombies' array is full and cannot grow |
| Threads.ThreadSystem.BecomeZombie | src/kern/thread/thread.c:412-416 | the thread joins the zombies and no thread is current |
| Threads.ThreadSystem.Pick | src/kern/thread/scheduler.c:87-105 | the head of the run queue becomes current |
| Threads.ThreadSystem.Exorcise | src/kern/thread/thread.c:102-118 | all zombies are destroyed, none of them the current thread; shrinking to 0 cannot fail |
| Threads.ThreadSystem.Move | src/kern/thread/thread.c:558-573 | one sleeper moves to the tail of the run queue; it fails exactly when the queue is full and cannot grow |
| Threads.ThreadSystem.FirstSleeper | src/kern/thread/thread.c:593-597 | the first sleeper on the address, if any |
| Threads.ThreadSystem.Wakeup | src/kern/thread/thread.c:548-576 | exactly the sleepers on the address move to the tail of the run queue in order, the rest stay in order, despite the index stepping back; after a fork the places are not enough if and only if no thread is current, everybody asleep is woken and there are as many threads as places |
| Threads.ThreadSystem.WakeNext | src/kern/thread/thread.c:558-575 | one turn of the loop: the next sleeper moves or stays |
| Threads.Enough | src/kern/thread/thread.c:548-576 | when the places of the run queue are enough for the woken, told by the lists |
| Threads.ThreadSystem.WakeOne | src/kern/thread/thread.c:582-611 | exactly the first sleeper on the address moves, if there is one; after a fork the queue is full if and only if no thread is current, nobody else sleeps and there are as many threads as places |
| Threads.ThreadSystem.HasSleepers | src/kern/thread/thread.c:617-632 | whether some thread sleeps on the address |
| Threads.AllReady | src/kern/thread/thread.c:291-308 | thirty-two forked threads for which the reserved run queue is full and thread_yield has to allocate |
| Threads.AllAsleep | src/kern/thread/thread.c:548-576 | the same threads all asleep and woken with no thread current: the last one finds the run queue full |
| Threads.Run | src/kern/thread/thread.c:244-611 | after any run of fork, yield, sleep, exit, switch, wakeup and burial every thread is in exactly one place, once, and the counter is right |
| Containers.Queue.constructor | src/kern/lib/queue.c:53-68 | an empty queue |
| Containers.Queue.IsEmpty | src/kern/lib/queue.c:83-88 | whether nothing is waiting |
| Containers.Queue.IsFull | src/kern/lib/queue.c:97-98 | the index test tells exactly when the contents fill all places but one |
| Containers.Queue.AddTail | src/kern/lib/queue.c:90-108 | the element joins the end; failure exactly when the ring is full and cannot grow, and then nothing changes |
| Containers.Queue.Grow | src/kern/lib/queue.c:17-51 | a ring at least as large as asked, never full, with the same contents in the same order; the mutual recursion with q_addtail terminates |
| Containers.Queue.Refill | src/kern/lib/queue.c:43-48 | the refill loop copies the old ring element by element |
| Containers.Queue.Preallocate | src/kern/lib/queue.c:70-81 | room for the number asked, contents unchanged |
| Containers.Queue.RemHead | src/kern/lib/queue.c:110-121 | the first element leaves |
| Containers.QueueStep | src/kern/lib/queue.c:17-121 | one call: what comes out followed by what waits is what was there followed by what goes in |
| Containers.RunQueue | src/kern/lib/queue.c:17-121 | over any run, what came out followed by what waits is what was there followed by what went in |
| Containers.Arr.constructor | src/kern/lib/array.c:15-26 | an empty array without storage |
| Containers.Arr.GetGuy | src/kern/lib/array.c:34-40 | the element at an index |
| Containers.Arr.Preallocate | src/kern/lib/array.c:42-65 | capacity grows by the doubling rule, contents unchanged; failure changes nothing |
| Containers.GrownForm | src/kern/lib/array.c:51-53 | the new capacity is (max + 2) * 2^k - 2, and k is 0 exactly when there was room |
| Containers.Arr.SetSize | src/kern/lib/array.c:67-89 | the common prefix is kept; storage of more than 16 is dropped with the last element |
| Containers.Arr.Add | src/kern/lib/array.c:99-114 | the element joins the end; it allocates only when the array is full |
| Containers.Arr.Remove | src/kern/lib/array.c:116-127 | exactly that element leaves and the rest keep their order |
| Atoi.Atoi | src/lib/libc/atoi.c:20-69 | blanks, a sign and the longest run of digits, read in 32-bit arithmetic |
| Atoi.ParsedParts | src/lib/libc/atoi.c:20-69 | what is read from blanks, sign, digits and a rest that does not start with a digit |
| Printf.Pf.Print | src/lib/libc/__printf.c:113-119 | the text is appended and counted |
| Printf.Pf.constructor | src/lib/libc/__printf.c:535-547 | nothing printed and no field begun |
| Printf.Pf.EndField | src/lib/libc/__printf.c:124-138 | the field state is reset |
| Printf.Pf.DoModifier | src/lib/libc/__printf.c:149-206 | width, alignment, fill and alternate form as each character says |
| Printf.Pf.GetNum | src/lib/libc/__printf.c:213-276 | sign and magnitude of the argument, also for the most negative integer |
| Printf.Pf.SetBase | src/lib/libc/__printf.c:288-308 | base and prefix flag of the conversion |
| Printf.Pf.Fill | src/lib/libc/__printf.c:313-322 | as many fill characters as asked |
| Printf.Pf.PrintStuff | src/lib/libc/__printf.c:330-369 | the field: spaces before the prefixes, zeros after them, padding on the right behind |
| Printf.Pf.DigitLoop | src/lib/libc/__printf.c:378-424 | for every 32-bit value in bases 8, 10 and 16 the digits fit the 12-byte buffer and are the number's digits |
| Printf.Pf.PrintNum | src/lib/libc/__printf.c:378-456 | sign, prefix and digits as one field |
| Printf.Pf.Send | src/lib/libc/__printf.c:461-528 | one character of the format |
| Printf.Vprintf | src/lib/libc/__printf.c:535-553 | the output of a whole format, and its length as the result |
| Printf.DecimalOf | src/lib/libc/__printf.c:378-456 | the decimal digits of a number stand for that number |
| Printf.FieldReads | src/lib/libc/__printf.c:330-369 | what atoi makes of a padded number in each of the four paddings |
| Printf.ShiftChanges | src/lib/libc/atoi.c:53-56 | appending zeros to a nonzero 32-bit number always changes it modulo 2^32 |
| Printf.RoundTrip | src/lib/libc/__printf.c:461-553 | atoi undoes %d for every 32-bit integer and every string of modifiers, if and only if no zeros are put behind a nonzero number |
| Printf.ZerosOnTheRight | src/lib/libc/__printf.c:365-368 | "%-03d" of 7 does not read back as 7 |
| PrintfText.NumberText | src/lib/libc/__printf.c:149-456 | %d, %u, %o, %x and %p with any modifiers: the sign or prefix and the numeral that reads as the magnitude in that base, padded to exactly the width if shorter |
| PrintfText.OtherText | src/lib/libc/__printf.c:461-528 | %s, %c and %% with any modifiers: the string, (null), the character or a percent sign, padded to the width |
| PrintfText.PlainText | src/lib/libc/__printf.c:461-528 | characters outside conversions are printed as they are and use no argument |
| PrintfText.Pieces | src/lib/libc/__printf.c:535-553 | a format is printed piece by piece, each with the arguments the ones before it left |
| PrintfText.InBaseReads | src/lib/libc/__printf.c:378-424 | the digits of a number read in the same base are the number, without a leading zero |
| PrintfText.FieldPadded | src/lib/libc/__printf.c:330-369 | a field has at least its width and never more than it needs, and where its padding stands |
| PrintfText.ModsMean | src/lib/libc/__printf.c:149-206 | a string of modifiers means: the digits in it are the width, a minus aligns to the left, a # asks for the prefix, a zero before any other digit pads with zeros |
| Memmove.Memcpy | src/lib/libc/memcpy.c:17-56 | for every overlap: the bytes at the distance between the regions over and over when the destination begins inside the source, and the move otherwise |
| Memmove.SmearedMoves | src/lib/libc/memcpy.c:22-24 | an upward copy is the move if and only if the destination does not begin inside the source or the source repeats with the distance between them |
| Memmove.SmearedUp | src/lib/libc/memcpy.c:42-53 | the next piece of an upward copy reads what the pieces before it left there |
| Memmove.Repeats | src/lib/libc/memcpy.c:42-53 | a source that repeats with the distance is its own pattern |
| Memmove.Memmove | src/lib/libc/memmove.c:18-87 | the same for every overlap and alignment, by words or by bytes |
| Memmove.CopyLong | src/lib/libc/memcpy.c:42-44 | a long is loaded whole before it is stored |
| Memmove.CopyByte | src/lib/libc/memcpy.c:50-52 | one byte is copied |
| Memmove.MovedAt | src/lib/libc/memmove.c:18-87 | the destination holds, byte by byte, what the source held, and every other byte is as it was |
| Memmove.WordsUp | src/lib/libc/memcpy.c:39-45 | copying by words upwards gives the same bytes as copying by bytes, also when the regions overlap |
| Memmove.BytesUp | src/lib/libc/memcpy.c:46-53 | copying by bytes upwards, for every overlap |
| Memmove.WordsDown | src/lib/libc/memmove.c:65-76 | copying by words downwards is the same move |
| Memmove.BytesDown | src/lib/libc/memmove.c:77-84 | copying by bytes downwards is the same move |
| Memmove.MovedDown | src/lib/libc/memmove.c:61-84 | the next piece of a downward copy has not been overwritten yet |
| Random.RearAfter | src/lib/libc/random.c:413-442 | the rear place after n draws |
| Random.SeededRear | src/lib/libc/random.c:230-247 | srandom leaves the rear pointer at 0 |
| Random.Pointers | src/lib/libc/random.c:413-442 | front and rear stay rand_sep apart, in bounds, and never wrap together |
| Random.Recurrence | src/lib/libc/random.c:413-442 | each word drawn is the sum, modulo 2^32, of the words drawn rand_deg and rand_sep draws before |
| Random.Trinomials | src/lib/libc/random.c:124-154 | the recurrences of the four types in numbers |
| Random.StreamWords | src/lib/libc/random.c:413-442 | each number returned is the upper 31 bits of its word |
| Random.LinearWords | src/lib/libc/random.c:420-423 | the linear generator of type 0 |
| Random.WordStays | src/lib/libc/random.c:424-440 | a word stays where it was written for a whole turn |
| Random.SeedsAt | src/lib/libc/random.c:230-240 | each word of a seeded state is the linear successor of the one before |
| Random.SeededSkips | src/lib/libc/random.c:241-246 | srandom throws the first ten turns away |
| Random.TypeFor | src/lib/libc/random.c:302-322 | the largest generator that fits into the bytes |
| Random.Randomizer.Draw | src/lib/libc/random.c:413-442 | the next number and the next state of the generator |
| Random.Randomizer.DrawSum | src/lib/libc/random.c:424-440 | the additive draw, with the pointer test the code makes |
| Random.Randomizer.Fill | src/lib/libc/random.c:237-239 | the words are seeded linearly |
| Random.Randomizer.DrawMany | src/lib/libc/random.c:413-442 | the stream of a generator, number by number |
| Random.Randomizer.Srandom | src/lib/libc/random.c:230-247 | the seeded generator of the current type, with the rear pointer at 0 |
| Random.Randomizer.Save | src/lib/libc/random.c:295-298 | the header word describes the generator exactly |
| Random.Randomizer.constructor | src/lib/libc/random.c:155-228 | the default generator of type 3 seeded with 1 |
| Random.Randomizer.InitState | src/lib/libc/random.c:281-332 | the largest generator that fits is seeded in the new array and the interrupted one is saved in its own; fewer than 8 bytes give NULL |
| Random.Randomizer.SetState | src/lib/libc/random.c:353-394 | the generator stored in the array resumes; with the array in use the call is harmless if and only if its header is up to date |
| Random.Randomizer.Switch | src/lib/libc/random.c:371-391 | the stored type and place become current |
| Random.StaleHeader | src/lib/libc/random.c:344-345 | after one draw, setstate of the array in use moves the generator back |
| Random.Interrupt | src/lib/libc/random.c:291-394 | a generator is left by initstate on any array or by setstate to a prepared one; whatever sequence of random, srandom, initstate and setstate is done with other arrays, setstate back resumes exactly the generator that was left |
| Random.Do | src/lib/libc/random.c:291-394 | each such call leaves the array that is not in use alone, and leaving an array stores its generator in it |
| PseudoRand.Schrage | src/kern/dev/generic/pseudorand.c:20-39 | every intermediate value fits 32 bits and the result is 16807 * seed mod (2^31 - 1) |
| PseudoRand.NextSeed | src/kern/dev/generic/pseudorand.c:20-39 | a seed in 1..2^31-2 leads to a seed in that range |
| PseudoRand.NextInjective | src/kern/dev/generic/pseudorand.c:20-39 | two seeds never lead to the same one |
| PseudoRand.Back | src/kern/dev/generic/pseudorand.c:15-39 | multiplying by 1407677000 undoes a step |
| PseudoRand.Device.constructor | src/kern/dev/generic/pseudorand.c:50-69 | the initial seed is in range |
| PseudoRand.Device.Random | src/kern/dev/generic/pseudorand.c:20-39 | the step, its result in 0..2^31-3, and no overflow on the way |
| PseudoRand.RunDevice | src/kern/dev/generic/pseudorand.c:20-39 | after n calls the seed is 16807^n times the first one, modulo 2^31 - 1 |
| DumbVm.FramesDistinct | src/kern/arch/mips/mips/dumbvm.c:62-154 | distinct pages of any address spaces never translate to the same frame |
| DumbVm.TranslateWithin | src/kern/arch/mips/mips/dumbvm.c:114-133 | a page translates into the physical range of its region |
| DumbVm.Mapping | src/kern/arch/mips/mips/dumbvm.c:114-133 | for all 32-bit bases and sizes: which pages are mapped and where, namely the text region, the data region and the twelve pages from 0x7fff4000 on, each page at its distance from the base of its region, and no others; a region whose top overflows has no pages |
| DumbVm.Placed | src/kern/arch/mips/mips/dumbvm.c:236-259 | memory fresh from the allocator meets no region of any address space |
| DumbVm.DefinedLate | src/kern/arch/mips/mips/dumbvm.c:197-259 | a region defined after as_prepare_load keeps all regions apart if and only if it gets no more pages than it was loaded with, for any address spaces beside it |
| DumbVm.DefinedInTime | src/kern/arch/mips/mips/dumbvm.c:197-234 | a region without physical memory may get any number of pages, and one with it no more than it has |
| DumbVm.LateRegion | src/kern/arch/mips/mips/dumbvm.c:197-259 | a run through the code in which a region defined late shares its first frame with the stack |
| DumbVm.Covers | src/kern/arch/mips/mips/dumbvm.c:197-212 | the pages of a region cover its bytes, and one page fewer would not |
| DumbVm.CopiedReads | src/kern/arch/mips/mips/dumbvm.c:277-315 | in a copy every mapped virtual address reads the byte it reads in the original |
| DumbVm.Vm.constructor | src/kern/arch/mips/mips/ram.c:15-45 | no address space, an empty TLB |
| DumbVm.Vm.StealMem | src/kern/arch/mips/mips/ram.c:63-77 | 0 exactly when memory runs out, otherwise the next pages |
| DumbVm.Vm.AllocKpages | src/kern/arch/mips/mips/dumbvm.c:43-52 | kernel pages meet no region of any address space |
| DumbVm.Vm.AsCreate | src/kern/arch/mips/mips/dumbvm.c:156-173 | an address space without regions, or none without memory for it |
| DumbVm.Vm.AsDestroy | src/kern/arch/mips/mips/dumbvm.c:175-179 | exactly that address space goes, and the TLB still tells the truth about it |
| DumbVm.Vm.AsActivate | src/kern/arch/mips/mips/dumbvm.c:181-195 | every TLB entry is invalid and the address space is the one shown |
| DumbVm.Vm.DefineRegion | src/kern/arch/mips/mips/dumbvm.c:197-234 | the first undefined region gets the page-aligned range, EUNIMP exactly for a third one; on a loaded address space the regions stay apart if and only if the region does not grow |
| DumbVm.Vm.Replace | src/kern/arch/mips/mips/dumbvm.c:197-234 | an address space that is not set up has no TLB entry, so changing it is harmless |
| DumbVm.Vm.Attach | src/kern/arch/mips/mips/dumbvm.c:243-257 | one region gets fresh memory and no region overlaps another |
| DumbVm.Vm.PrepareLoad | src/kern/arch/mips/mips/dumbvm.c:236-259 | three fresh ranges, one behind the other, or ENOMEM exactly when they do not fit |
| DumbVm.Vm.Fault | src/kern/arch/mips/mips/dumbvm.c:62-154 | a page of the text region, the data region or the stack is entered into the first invalid TLB slot with its frame, any other page is EFAULT; it fails exactly when the page is unmapped or the TLB is full; the spl is restored except when there is no address space |
| DumbVm.Vm.Enter | src/kern/arch/mips/mips/dumbvm.c:138-153 | the first invalid TLB slot takes the entry and no other changes, and EFAULT exactly when there is none |
| DumbVm.Vm.AsCopy | src/kern/arch/mips/mips/dumbvm.c:277-315 | ENOMEM exactly when the structure or the pages do not fit; otherwise a new address space of the same layout in memory of its own, nothing below it changed, with the same contents when the original lies in memory that was handed out |
| DumbVm.FromBelow | src/kern/arch/mips/mips/dumbvm.c:277-315 | an address space whose regions have physical memory lies in memory that was handed out |
| DumbVm.StaysBelow | src/kern/arch/mips/mips/dumbvm.c:301-311 | the three copies change nothing below the new memory, wherever they read |
| DumbVm.Run | src/kern/arch/mips/mips/dumbvm.c:62-315 | after any run of as_create, as_destroy, as_activate, as_define_region, as_prepare_load, as_copy, alloc_kpages and vm_fault no two pages share a frame, and each valid TLB entry is a page of the active address space whose frame no other page of any address space has |
| DumbVm.Vm.Clone | src/kern/arch/mips/mips/dumbvm.c:282-296 | a new address space of the same layout, or none and ENOMEM exactly when it does not fit |

## Left out

- Sfs.Mount.RwBlock: does not model device errors and retries, because the device is a reliable array of blocks.
- Sfs.DoMount: takes a superblock that counts no more blocks than the device has, which the source only warns about.
- Sfs.Mount.Reclaim: does not model the EBUSY return for a vnode picked up meanwhile, because SFS calls do not overlap in the model.
- Sfs.Mount.Truncate: does not claim that bytes past the end read as zeros after a file shrinks and grows again, because the code does not clear them.
- UserIo.Uio.Move: models transfers in kernel memory only; user-space transfers, their faults and descriptors with more than one buffer are not there.
- Mksfs.Format: does not model the rules about colons and slashes in the volume name, or a device too small for its free map.
- Crash consistency: what is on the device between two syncs, and the order of disk writes. The superblock's dirty flag, which nothing sets.
- The unused area of an on-disk inode, and its fields beyond size, type, link count and block numbers.
- SFS locking and concurrency, path lookup through VFS, stat, and the operation tables.
- Vnodes as objects: they are told apart by inode number.
- The checking and printing code of the heap (`checksubpages`, `kheap_printstats`), and double frees.
- The driver thread of the cat and mouse problem and its wait for all animals, which has no predicate loop; `catsem.c` and `stoplight.c`.
- PidManager.Manager.Add: does not model the path on which the new block itself cannot be allocated, because it releases a lock that is not held and stops there.
- PidManager.Manager.Exit: for process 1 takes the blocks of its children to be there; `PidRun.FirstWaiter` shows that they need not be.
- Threads.ThreadSystem.Fork: does not model that a failure after the pid was allocated keeps the pid.
- What the source does after a failed allocation in a context switch or a wakeup: it stops there.
- Process exit through `thread_exit` as one piece: the process table, the thread lists and the address space are modelled apart.
- Semaphore operations from interrupt handlers, and thread exit inside the interleavings of `Synch`.
- The order in which ready threads run and sleepers are woken is open in `Synch`; the order the queues give is in `Threads`.
- Stacks, machine-dependent switching, names and working directories of threads.
- Printf.Pf.DoModifier: does not model a field width that overflows an int.
- Random.Randomizer.constructor: takes the table built into `random.c` to be what `initstate(1, randtbl, 128)` leaves, as its comment says.
- Reading the random device in chunks of three bytes.
- DumbVm.Vm.Fault: takes the address space of the current thread, if it has one, to be the one last activated, as the thread switch makes it.
- DumbVm.Vm.AsCopy: claims equal contents only for an original that lies in memory that was handed out; one without physical memory is copied from physical address 0.
- Duplicate TLB entries and what the hardware does with them, swapping, and `ram_getsize`.
- Device drivers, LAMEbus, console, traps, ELF loading, system call dispatch, the menu and user programs.
