# A model of the ext2 driver and the VFS tree above it

The project models a small VFS with an ext2 driver and proves what holds of it for every input,
every state and every run:

- **The volume** (`Bytes`, `Bitmap`, `Numbering`, `Layout`, `Inode`, `State`, `Volume`, `Mount`,
  `Device`). A volume is an object with the device's blocks, the superblock's 1024 bytes and the
  descriptor table, all as bytes. A ghost view says what the bytes mean: which block and inode
  numbers are free, the inode table, the data blocks. `Volume.Valid` ties the two together, so that
  a routine which writes one byte wrongly, or forgets to write a table back, has no proof. The
  allocators, the inode table and block I/O are methods on bytes that are proved against the view.
  `Devices` says, address by address, where on the device the view's parts are.
- **Directory blocks** (`Dirent`, `DirBlock`, `Listing`, `VnodeDirs`, `VnodeFind`). A block is an
  array of bytes tiled by records of varying length. Splitting, absorbing, sliding down and
  dropping are in-place edits, each proved to change the sequence of entries in exactly one way;
  over all blocks of a directory that is insertion into, and removal from, a finite map.
- **Files** (`Files`, `VnodeFiles`, `VnodeWrite`, `VnodeTrunc`, `Appends`). A regular file is a
  byte sequence. Reading, writing and truncating are proved to slice, patch and cut it, and where
  the driver does that only for some arguments, the exact condition is proved.
- **A clean volume** (`Names`, `Effects`, `Fsck`, `FsckDirs`, `FsckMake`, `FsckFiles`, `Fresh`,
  `Ahead`, `Runs`, `Calls`, `Undo`, `Overlong`, `Example`). `Fsck.Ok` is what a file-system check
  would verify: counters agree with bitmaps, no block has two owners or is both owned and free,
  directories are tiled and have unique names, and the names form one tree in which every inode in
  use has one place. Every operation keeps it, and so does every run of operations; each of the
  driver's calls is proved to be a step of such a run. There are two exceptions, for which the
  exact conditions are proved and a concrete volume is given: a further write through a vnode on
  which one ran out of space, and a truncate to a length within a block of 2^64. A creation
  followed by a removal restores the volume.
- **The VFS** (`Paths`, `Walks`, `VfsTree`, `VfsCache`, `VfsLookup`, `Vfs`, `VfsRemove`,
  `Mirrors`). Nodes live in an address space and are linked by parent, child and sibling pointers.
  Lookups through the cache give what asking the file system for every component gives; the cascade
  that frees nodes frees exactly the right ones; reference counts equal the number of holders after
  every call; an unlink leaves the cache true exactly if nobody uses the file; and what the VFS
  takes the file system to say is what the directories on the device say, after any run.
- **The hash table** (`Hash`). Chains of entries that stand for a finite map, for any equivalence
  on keys and any hash that agrees with it, and that hand each value to `valfree` exactly once.

The names used most: a `View` is the meaning of a volume's bytes; a `Catalog` records who owns
which block and where each inode has its name; an `Edit` says how a directory insertion or removal
went (rewrite a block, add a block, drop a block).

Where the code and its documentation differ the code is followed: the fields of the superblock are
where `include/ext2.h` puts them.

## Model

The hardest results come first.

| member | source | states |
|---|---|---|
| Runs.RunKeeps | src/ext2/ext2vnop.c:126-627 | Any run of creat, mkdir, unlink, supported writes, writes that run out of space, further writes through such a vnode as long as they are harmless, last closes of it, shrinking truncates and failed creations, in any order, takes a clean volume to a clean volume; the inodes in memory that are ahead of the device are part of the state |
| Runs.StepKeeps | src/ext2/ext2vnop.c:126-627 | Each of these calls keeps the whole check: counters, exclusive block ownership, tiled directories with unique names, one tree of names; and says what became of the tree |
| Runs.StepKeepsAhead | src/ext2/ext2vnop.c:375-416 | And of the inodes in memory that are ahead: each still differs from the device in nothing but a size that spans more blocks |
| Calls.CreatStep | src/ext2/ext2vnop.c:213-281 | The code itself takes such steps: creat called on a clean volume, through a directory in use that does not have the name, takes the step Create, or Fail if it fails, and leaves the volume clean |
| Calls.MkdirStep | src/ext2/ext2vnop.c:126-211 | mkdir takes the step Make or Fail |
| Calls.UnlinkStep | src/ext2/ext2vnop.c:560-627 | unlink of a name that is listed takes the step Remove, or refuses with -EISDIR and nothing has changed |
| Calls.WriteStep | src/ext2/ext2vnop.c:317-416 | A supported write takes the step Put if all of it was written, and PutPart if space ran out |
| Calls.RetryStep | src/ext2/ext2vnop.c:317-416 | A harmless write through a vnode that is ahead of the device takes the step Retry |
| Calls.TruncateStep | src/ext2/ext2vnop.c:418-465 | truncate to a length that fits takes the step Cut, or nothing has changed |
| Aheads.AheadWriteExact | src/ext2/ext2vnop.c:317-416 | After a write ran out of space, the inode in memory is ahead of the device. Any further write through the vnode, at any position, leaves a volume that is clean if and only if it writes nothing, again finds no space for its last part, or puts its block just where the one block is missing; a caller can tell from the free blocks, the sizes, the position and the count |
| Aheads.RetryExact | src/ext2/ext2vnop.c:331-390 | Continuing from where the failed write stopped, by less than a block, is harmless if and only if there still is no space: the block at the position cannot be read, so the bytes go one block too far |
| Aheads.RetryHarms | src/ext2/ext2vnop.c:331-390 | A concrete failing input: blocks of 1024 bytes, a file of one full block, ten bytes that found no space, and the same ten bytes again once a block is free. By its sizes this is a supported write, and no catalog makes the volume clean afterwards |
| Examples.RetryHappens | src/ext2/ext2vnop.c:331-390 | And it does come about: on a volume of nine blocks that is written out the retry goes through, reports its ten bytes, and the volume is not clean |
| Aheads.RunsAhead | src/ext2/ext2vnop.c:375-416 | How an inode gets ahead: on a clean volume a supported write without space leaves the device's inode as it was, the one in memory longer, and the position at the end of the last block |
| FsckDirs.CreateKeeps | src/ext2/ext2vnop.c:213-281 | creat of a fresh name keeps the volume clean, and the tree gains just that name |
| FsckMake.MakeKeeps | src/ext2/ext2vnop.c:126-211 | mkdir of a fresh name keeps the volume clean; the tree gains the name and a directory that holds "." and ".." |
| FsckMake.UnlinkKeeps | src/ext2/ext2vnop.c:560-627 | unlink keeps the volume clean; the tree loses just that name, and the directory it stood for |
| FsckFiles.ChangeKeeps | src/ext2/ext2vnop.c:317-465 | Growing, rewriting or shrinking one file's blocks keeps the volume clean and the tree as it was |
| Runs.LeakKeeps | src/ext2/ext2vnop.c:226-233 | A creation that fails after taking numbers leaves the volume clean (the numbers are lost) |
| Runs.PartKeeps | src/ext2/ext2vnop.c:375-416 | A write that finds no space for its second part leaves the device clean and the tree as it was, and the inode in memory ahead |
| Runs.RetryKeeps | src/ext2/ext2vnop.c:317-416 | A harmless further write keeps the volume clean and the tree as it was; if it got its block the inode is no longer ahead |
| Overlong.TruncateCleanExact | src/ext2/ext2vnop.c:418-465 | A truncate of a file of a clean volume, to any 64-bit length, leaves a clean volume in which the file is in use if and only if the length is not within a block of 2^64, or is the present one, or the file has no blocks |
| Overlong.TruncateHarms | src/ext2/ext2vnop.c:430-457 | A concrete failing input: a file of one block of 1024 bytes, truncated to (size_t) -1. The call returns 0, the block is free, and the inode says 2^32 - 1 bytes with a pointer that is 0 |
| Examples.TruncateHappens | src/ext2/ext2vnop.c:430-457 | And it does come about, on the same written-out volume |
| FsckFiles.CleanTail | src/ext2/ext2vnop.c:253-256 | In a clean volume, hence after any run, the pointers behind the blocks of a file are 0 |
| Fresh.EmptyIsClean | src/ext2/ext2.c:98-118 | Where runs may start: a volume whose root directory, inode 2, holds nothing but "." and ".." is clean |
| Examples.CleanExists | src/ext2/ext2.c:26-118 | Such a volume exists, byte for byte: nine blocks of 1024 bytes with superblock, descriptor table, bitmaps, inode table and a root directory mean a view that passes the whole check |
| Examples.FileVolume | src/ext2/ext2vnop.c:213-281 | So does one whose root directory holds a file of one full block |
| Undo.UnlinkUndoesCreate | src/ext2/ext2vnop.c:213-627 | creat of a fresh name and then unlink restores both bitmaps, all counters, the directory's size and names in order, and all other inodes and blocks, even if the name needed a new directory block |
| Undo.UnlinkUndoesMake | src/ext2/ext2vnop.c:126-627 | The same for mkdir and unlink |
| Undo.FreshIsBare | src/ext2/ext2vnop.c:566-596 | unlink does not refuse a directory that mkdir has just made |
| Undo.EditsMatch | src/ext2/ext2dir.c:92-175 | The block the removal edits is the one the insertion edited: a record split is joined again, a block added is dropped again |
| Fsck.BlocksExclusive | src/ext2/ext2alloc.c:18-92 | In a clean volume no two pointers of inodes in use name the same block |
| Fsck.NamesLive | src/ext2/ext2vnop.c:59-113 | In a clean volume every directory entry stands for an inode that is allocated |
| Fsck.Frame | src/ext2/ext2vnop.c:126-627 | What holds of an inode, and what a directory lists, survives whatever happens to blocks and inodes that are not its own |
| Fsck.RepSane | src/ext2/ext2alloc.c:9-317 | The range and counter part of the check holds of any valid volume's bytes |
| Names.Reachable | src/ext2/ext2dir.c:11-88 | In a clean volume a path of names leads from the root to every inode in use |
| Names.OnePath | src/ext2/ext2dir.c:11-88 | And only one does |
| Runs.CleanRemovable | src/ext2/ext2vnop.c:560-627 | A clean volume meets what unlink relies on: the file's blocks are its own and none is the directory's, and the listed name stands for that inode, so that -EIO cannot be the answer |
| FsckFiles.CleanFile | src/ext2/ext2vnop.c:317-465 | A clean volume meets what write and truncate rely on |
| Runs.CleanDir | src/ext2/ext2vnop.c:126-281 | A clean volume meets what creat and mkdir rely on |
| Appends.AppendsConcat | src/ext2/ext2vnop.c:317-416 | Any run of writes at the end of a file with space for them: every call returns its length, the file says what it said and then all buffers in order, the position is the new size, and the free blocks fall by ceil(new/bs) - ceil(old/bs) |
| Appends.AppendsGoOn | src/ext2/ext2vnop.c:317-416 | In a run of writes at the end, each shorter than a block, that ends within the direct blocks and for which there is space, every call finds memory and device in agreement and may be made |
| Appends.AtEndWritable | src/ext2/ext2vnop.c:345-350 | A write at the end that is shorter than a block and ends within the direct blocks is one the driver carries through |
| Files.WriteSizeExact | src/ext2/ext2vnop.c:331-415 | The size write records is the right one if and only if the write is at the end, stays in its block, or starts in a partly used last block |
| Files.ReadExact | src/ext2/ext2vnop.c:285-315 | The copy loop delivers the file's bytes, whatever the buffer held, if and only if the read starts on a block boundary or stays in one block |
| Files.FileIsBlocks | src/ext2/ext2blk.c:53-75 | With the indirect block a sequence of words ps: the file's bytes are the blocks inode.direct + ps, one after the other, cut to the size |
| VnodeFiles.Read | src/ext2/ext2vnop.c:285-315 | A read from any position. It asks for min(size - pos, count) bytes, where the difference wraps behind the end; if that is 0 it returns -1 with the buffer untouched. If all blocks are there it returns the number and puts each block's bytes where the loop puts them, which for the supported reads is the file's slice; otherwise it stops before the first block that is missing, with -EIO |
| VnodeFiles.PastEndExact | src/ext2/ext2vnop.c:290-312 | A read of a file without holes from behind its end finds all the blocks it asks for if and only if they lie within the file's last block or before |
| VnodeFiles.Cat | src/ext2sh.c:180-197 | Reading from the start in chunks that divide, or are multiples of, the block size yields the whole file and stops |
| VnodeFiles.VfsReadChunk | src/vfs.c:898-924 | The i-th such chunk is the i-th slice of the file; nothing is delivered only at the end |
| VnodeFiles.ChunkSafe | src/vfs.c:917-923 | Reads of such chunks one after the other are all of the supported kind |
| VnodeWrite.Write | src/ext2/ext2vnop.c:317-416 | -ESPIPE behind the recorded end, with nothing changed. Otherwise, whatever the inode in memory: the bytes that fit go into the last block, if it can be read; the rest into a new block behind it, with the inode written as it is in memory, or, without space, nowhere, and only the size in memory counts it; the result and the position say how much was written. If memory and device agreed and the write is supported, the file's bytes are patched at pos, and memory and device agree again |
| VnodeWrite.PutBehind | src/ext2/ext2vnop.c:375-410 | A new block gets the lowest free number and holds the data from its start; without space the device is as before |
| VnodeWrite.WriteInside | src/ext2/ext2vnop.c:339-372 | The part of a write that goes into the last, partly used block fills exactly what fits there |
| VnodeWrite.HalfThenBehind | src/ext2/ext2vnop.c:331-415 | Filling up the last block and adding one make together the patch the whole write should be |
| Files.PatchBlock | src/ext2/ext2vnop.c:352-371 | Overwriting bytes in one block of a file patches the file's byte sequence there |
| Files.AppendBlock | src/ext2/ext2vnop.c:375-410 | A block put behind a file that fills its blocks appends the block's bytes |
| Files.PrefixBytes | src/ext2/ext2vnop.c:430-460 | Dropping blocks from the end leaves a prefix of the file |
| VnodeTrunc.Truncate | src/ext2/ext2vnop.c:418-465 | For every 64-bit length: the number of blocks is (length + bs - 1) / bs on 64 bits, where the sum may wrap; -EINVAL with nothing changed if that is not fewer than the file has, 0 otherwise, with the last blocks given back, their pointers 0, the low 32 bits of the length as the size, and memory and device agreeing, even though the size may wrap below zero on the way; and this is what was asked for if and only if the length fits |
| VnodeTrunc.TruncateExact | src/ext2/ext2vnop.c:430-457 | What was asked for: nothing if the length is as it was; if it takes fewer blocks, the contents become the prefix and the free blocks rise by the difference; else -EINVAL. truncate does that if and only if length + bs fits 64 bits, or the length is the present one, or the file has no blocks |
| VnodeTrunc.FreeNext | src/ext2/ext2vnop.c:437-452 | Each round of the loop gives one more of the last blocks back |
| VnodeOps.Creat | src/ext2/ext2vnop.c:213-281 | creat takes the lowest free inode, writes an empty regular file there and enters the name; of the inode's first 128 bytes it says them all: permission bits, uid, gid, one link, 0 elsewhere. It fails, with -ENOSPC, if and only if no inode is free, or no block is and no record of the directory has room; and it says which numbers it then lost |
| VnodeOps.Mkdir | src/ext2/ext2vnop.c:126-211 | mkdir takes an inode and a block, makes a directory with "." and ".." there, with an inode all of whose first 128 bytes are said, and enters the name; it fails if and only if there is no inode, no block, or no second block and no record with room, and says which numbers it then lost |
| VnodeOps.WriteDir | src/ext2/ext2vnop.c:147-205 | The block and the inode of a new directory, as bytes |
| VnodeOps.NewInodeBytes | src/ext2/ext2vnop.c:237-262 | The bytes of the inode that creat and mkdir fill in |
| VnodeUnlink.Unlink | src/ext2/ext2vnop.c:560-627 | -EISDIR if and only if the file is a directory of more than one block or with more than "." and ".." in it, and then nothing changes; otherwise its blocks and inode go back, and -EIO if and only if the directory had no such name; else the name leaves the directory |
| VnodeUnlink.CheckBare | src/ext2/ext2vnop.c:566-596 | Reading the first block decides whether a directory holds nothing but "." and ".." |
| VnodeUnlink.FreeBlocks | src/ext2/ext2vnop.c:598-610 | The loop gives back exactly the blocks the size spans, last to first, and empties the inode on the device |
| VnodeDirs.AddName | src/ext2/ext2dir.c:11-88 | If a record of some block has room, by its bytes, the call succeeds by splitting one in the first such block, and free blocks, size and pointers stay as they are even if nothing is free. If none has, the entry goes into a new last block, and -ENOSPC comes if and only if no block is free |
| VnodeDirs.RemoveName | src/ext2/ext2dir.c:118-175 | The first entry of that name, which has to be the given inode's as the code asserts, goes by whichever of the three ways fits; -EIO if and only if there is none |
| VnodeDirs.DropBlock | src/ext2/ext2dir.c:92-116 | A block whose one entry goes is freed, the later pointers move down, and the size falls by a block |
| VnodeDirs.ShiftPointers | src/ext2/ext2dir.c:99-108 | The loop moves the later pointers down one place and leaves 0 in the last |
| Effects.FirstBlockStays | src/ext2/ext2dir.c:118-175 | Removing a name other than "." never drops a directory's first block |
| DirBlocks.AddToBlock | src/ext2/ext2dir.c:28-64 | The entry is added if and only if some record is longer than its own name with the reserved header, aligned, and has that and the aligned new record within its length; the first such record is split there, and the block holds the old entries and the new one, still tiled; otherwise nothing changed |
| DirBlocks.RoomExact | src/ext2/ext2dir.c:37-51 | The pass finds room if and only if there is such a record, byte for byte |
| DirBlocks.FreshTakes | src/ext2/ext2vnop.c:181-198 | The block mkdir formats takes a name of n bytes if and only if it fits behind 12 bytes for "." and those kept for ".." |
| DirBlocks.SplitAdds | src/ext2/ext2dir.c:40-62 | The split overwrites no other header or name; both halves are aligned and big enough and their lengths add up |
| Dirents.FirstEntry | include/ext2.h:115-121 | What a record is in bytes: inode in 0 to 3, length in 4 and 5, name length in 6, name from 8 on; the next record is its length further |
| Files.ListingIsRecords | src/ext2/ext2vnop.c:59-113 | A directory lists the records by which its blocks, one after the other, are tiled |
| DirBlocks.RemoveFromBlock | src/ext2/ext2dir.c:130-170 | On the bytes: the first entry of the name goes and all others stay in order, or the block is to be dropped, or the name is not there; the assertion on the entry's inode holds |
| DirBlocks.AbsorbRemoves | src/ext2/ext2dir.c:138-143 | Growing the record before removes exactly the last entry |
| DirBlocks.SlideRemoves | src/ext2/ext2dir.c:144-150 | Moving the next record down and adding the lengths removes exactly that entry |
| DirBlocks.FindInBlock | src/ext2/ext2vnop.c:80-108 | The pass over a block finds the first entry of that name |
| DirBlocks.FormatDir | src/ext2/ext2vnop.c:181-198 | The first block of a directory parses as "." and ".." |
| Listings.InsertContent | src/ext2/ext2dir.c:19-88 | Inserting under a fresh name keeps names unique and adds just that entry to the set |
| Listings.RemoveContent | src/ext2/ext2dir.c:118-175 | Removing keeps names unique and takes away just that entry |
| Listings.RemoveUndoesInsert | src/ext2/ext2dir.c:11-175 | Removing what was inserted restores the listing in order |
| Listings.LookupIsMap | src/ext2/ext2vnop.c:59-113 | With unique names the search is a finite map's lookup: it finds i if and only if (name, i) is an entry, and 0 if and only if there is none |
| VnodeFind.Find | src/ext2/ext2vnop.c:59-113 | find returns the inode the listing has under the name, with its contents, or -ENOENT exactly if there is none |
| VnodeFind.List | src/ext2sh.c:124-140 | readdir from the start until it fails lists every entry exactly once, in block order, and then stops |
| VnodeFind.ReaddirAt | src/ext2/ext2vnop.c:468-506 | At the idx-th entry readdir delivers it and moves to the next, never leaving the block in between; behind the last it fails |
| VnodeFind.NextEntry | src/ext2/ext2vnop.c:488-505 | One record length on is the place of the next entry |
| Dirents.SplitRecord | src/ext2/ext2dir.c:40-62 | A record cut in two is two entries |
| Dirents.AbsorbLast | src/ext2/ext2dir.c:138-143 | The record before takes over the last one's length |
| Dirents.SlideNext | src/ext2/ext2dir.c:144-150 | The record behind moves down over the removed one |
| Dirents.Patch | src/ext2/ext2dir.c:28-64 | If a stretch of a block is tiled anew, the whole is, and its entries are those before, the new ones and those after |
| Volumes.Volume.Alloc | src/ext2/ext2alloc.c:9-92 | The lowest free number is handed out and is free no more; -ENOSPC with nothing changed if and only if nothing is free; the device's bitmap, table and superblock agree with memory |
| Volumes.Volume.Free | src/ext2/ext2alloc.c:93-138 | The number becomes free and nothing else changes, in memory and on the device |
| Volumes.Volume.FindClear | src/ext2/ext2alloc.c:18-62 | The search over groups, words and bits stops at the first clear bit, and passes only full groups |
| Volumes.Volume.Commit | src/ext2/ext2alloc.c:64-91 | Bitmap block, descriptor table and superblock go out, and no other byte of the device changes |
| Volumes.MarkRep | src/ext2/ext2alloc.c:233-317 | A bit set and two counters lowered mean exactly: this number is taken |
| Volumes.UnmarkRep | src/ext2/ext2alloc.c:185-231 | A bit cleared and two counters raised mean exactly: this number is free |
| Devices.FreeBit | src/ext2/ext2alloc.c:18-48 | On the device's bytes: number g * per + i + 1 is free if and only if bit i, counted on 64-bit words, is clear in the block that bytes 0 to 3 (blocks) or 4 to 7 (inodes) of group g's descriptor name |
| Devices.Descriptor | include/ext2.h:78-87 | A group descriptor is 32 bytes of the table: the two bitmaps, the inode table and the two free counts at 0, 4, 8, 12 and 14 |
| Devices.Totals | include/ext2.h:26-31 | The numbers of free blocks and inodes are at 12 and 16 of the superblock at 1024 |
| Devices.InodeBytes | src/ext2/ext2blk.c:77-103 | Inode g * per + i + 1 is the i-th entry of the table that bytes 8 to 11 of group g's descriptor name |
| Devices.DataBytes | src/ext2/ext2blk.c:15-41 | A data block's contents are the bytes at its number times the block size |
| Volumes.AllocCounters | src/ext2/ext2alloc.c:64-86 | None of the counters wraps when a number is taken |
| Volumes.FreeCounters | src/ext2/ext2alloc.c:109-133 | None wraps when a number is given back |
| Numbering.NumInverts | src/ext2/ext2alloc.c:99-111 | (group, index) to number is a bijection onto 1..groups * per |
| Arith.QuotIsDivision | src/ext2/ext2alloc.c:99-111 | The recursive quotient and remainder the proofs carry around are C's unsigned / and % |
| Numbering.TakeOk | src/ext2/ext2alloc.c:64-86 | Taking keeps every group's count equal to its clear bits |
| Numbering.GiveOk | src/ext2/ext2alloc.c:109-133 | So does giving back |
| Numbering.FirstFitIsLeast | src/ext2/ext2alloc.c:18-62 | The first clear bit of the first group that has one is the lowest free number |
| Numbering.NoneFree | src/ext2/ext2alloc.c:18-26 | Nothing is free if and only if every group's count is zero |
| Numbering.SumIsCardinality | src/ext2/ext2alloc.c:80-91 | The superblock's total, the sum of the counts, is the number of free objects |
| Numbering.GiveUndoesTake | src/ext2/ext2alloc.c:9-138 | Freeing what was just allocated restores every bitmap byte and every count |
| Numbering.FreeDetermines | src/ext2/ext2alloc.c:9-138 | Which numbers are free determines every bit and count, so any run of takes and gives that cancels out restores them |
| Bitmap.SetBit | src/ext2/ext2alloc.c:65-65 | Bit n becomes 1, every other bit stays |
| Bitmap.ClearBit | src/ext2/ext2alloc.c:111-111 | Bit n becomes 0, every other bit stays |
| Bitmap.WordBit | src/ext2/ext2alloc.c:29-33 | Bit number 64 * j + k is bit k of the j-th little-endian 64-bit word |
| Bitmap.SetBitWord | src/ext2/ext2alloc.c:65-111 | Setting bit 64 * j + k adds 2^k to word j unless it is set, clearing it takes 2^k away if it is, and all other words stay |
| Bitmap.WordFullIs | src/ext2/ext2alloc.c:30-31 | The word test is the comparison with 2^64 - 1 |
| Bitmap.WordFullBits | src/ext2/ext2alloc.c:29-31 | The 64-bit comparison skips a word exactly if all of its 64 bits are set |
| Bitmap.CountClearPadding | src/ext2/ext2alloc.c:26-62 | Set padding bits do not count as free |
| Volumes.Volume.ReadInode | src/ext2/ext2blk.c:77-103 | Reading inode ino gives what the table holds under that number |
| Volumes.Volume.WriteInode | src/ext2/ext2blk.c:105-136 | Writing inode ino changes that inode and no other |
| State.WriteInodeRep | src/ext2/ext2blk.c:105-136 | The bytes written lie in no other inode, bitmap, table or data block |
| State.WriteDataRep | src/ext2/ext2blk.c:29-41 | Writing a data block changes that block's contents and nothing else the volume means |
| Layout.SlotsDisjoint | src/ext2/ext2blk.c:83-95 | Distinct inodes occupy disjoint bytes |
| Layout.SlotFits | src/ext2/ext2blk.c:83-95 | An inode never crosses a block |
| Inodes.DecodeEncode | include/ext2.h:88-113 | Writing and reading an inode structure gives it back |
| Inodes.EncodeDecode | include/ext2.h:88-113 | Reading and writing back changes no byte, including those the driver does not use |
| Inodes.FieldsAt | include/ext2.h:88-113 | Each field of an inode is where the packed structure has it |
| Layout.GeometryFits | src/ext2/ext2.c:56-73 | For every superblock whose block size an int can hold: the group count is ceil(blocks / group size); the table that is read has room for a 32-byte descriptor of each group if and only if 32 * groups fits 32 bits, which it does on every volume whose addresses do; table and superblock do not overlap |
| Layout.GeometryMeans | src/ext2/ext2.c:51-73 | What mounting makes of a superblock's bytes: block size 1024 doubled as often as the log says; as many groups as it takes; the table in the first block behind the superblock; inodes of 128 bytes and 11 as first inode that is not reserved if the version is 0 |
| Layout.SpanWraps | src/ext2/ext2.c:67-68 | A concrete failing input: with 2^27 groups the table is taken to be one block |
| Mounting.Mount | src/ext2/ext2.c:26-88 | Mounting succeeds if and only if the device is long enough for a superblock and has the magic number there, else -EINVAL; it then has the normalized superblock, its geometry and the whole descriptor table |
| Mounting.RemountRestores | src/ext2/ext2.c:57-84 | Mounting the device of a valid volume, after whatever was done to it, finds the superblock, geometry and descriptors that were in memory |
| Mounting.Remount | src/ext2/ext2.c:26-88 | The same of the mount routine itself: unmounting and mounting again loses nothing |
| Mounting.BlockAddress | src/ext2/ext2blk.c:15-41 | Block b is the bytes from b * bs on of a flat device |
| Mounting.SuperblockAddress | src/ext2/ext2blk.c:10-13 | The superblock is the 1024 bytes at 1024 whatever the block size |
| Vnodes.ReadInodeBlock | src/ext2/ext2blk.c:53-75 | Block index of an inode, direct or through the indirect block; -EIO if and only if there is none |
| Vnodes.FoundInOrder | src/ext2/ext2blk.c:62-69 | It is the index-th of the direct pointers followed by the words of the indirect block in order |
| Vnodes.WriteInodeBlock | src/ext2/ext2blk.c:43-51 | Writing a direct block of an inode |
| Vnodes.AllocInodeBlock | src/ext2/ext2alloc.c:140-159 | The pointer gets the lowest free block and the inode goes to the device; without space nothing changes |
| Vnodes.FreeInodeBlock | src/ext2/ext2alloc.c:161-183 | The pointer becomes 0, the block is free, and the inode goes to the device |
| VfsLookup.FindTree | src/vfs.c:191-323 | In trees without symbolic links and mount points: whatever is cached, the lookup through the tree ends at the position where asking the file system for every component ends, or fails as it does; it only adds unreferenced nodes that are true |
| Walks.WalkExact | src/vfs.c:202-222 | The resolution of "." and ".." is the textbook one on every file system, whatever it says about ".", if and only if no "." follows a ".." at the root |
| Walks.WalkOnVolume | src/vfs.c:202-222 | On a file system whose root has an entry ".", as every ext2 volume does, the two find something on the same paths, and the same inode; they disagree on the position if and only if the walk ends seeing it through the root's "." |
| Walks.WalkMiss | src/vfs.c:599-660 | If the parent of a path is found but the path is not, the parent does not have the last name |
| VfsCalls.LookupFrom | src/vfs.c:325-365 | If p leads from a node to node n, a relative path q looked up from n leads where p/q leads from that node. On every file system whose root holds ".", as on a volume, it is the same inode for all p and q; on others, and for the position, unless p ends with a ".." at the root and q begins with "." |
| VfsCalls.LookupHere | src/vfs.c:353-364 | The empty path leads to the node itself, a name to what the directory has under it, and an absolute path leads from every node where its rest leads from the root |
| Walks.ConcatExact | src/vfs.c:202-222 | Walking a path in two parts is walking it whole, for every second part on every file system, if and only if the first part does not end with a ".." at the root |
| Walks.ConcatFails | src/vfs.c:202-222 | A concrete case in which it is not: ".." and "." at the root of a file system without an entry "." |
| Walks.ConcatOnVolume | src/vfs.c:202-222 | On a file system whose root has an entry ".", the two parts always find the same inode as the whole |
| VfsLookup.AttachGrows | src/vfs.c:295-301 | Attaching what the file system found keeps the cache true |
| VfsCache.Cache.NodeRemove | src/node.c:9-39 | The recursive removal frees exactly the chain of nodes it leaves childless, unreferenced and below the root, keeps all others, and the tree well formed |
| VfsCache.Cache.Unref | src/node.c:86-112 | Giving up the last use of a childless node frees it and that chain, otherwise only the count changes; a count of 0 stays, and the code asserts that such a node has a child |
| VfsCache.Cache.Attach | src/vfs.c:295-301 | The tree stays well formed with unique names when a child is put in front of its siblings |
| VfsCache.DoomedSafe | src/node.c:9-71 | No node that stays, hence nothing referenced, has a freed ancestor |
| VfsCache.DoomedMaximal | src/node.c:9-71 | The parent of a freed node is freed too unless it is the root, referenced, or has another child |
| VfsCache.DoomedUnused | src/node.c:9-71 | Only unreferenced nodes other than the root are freed |
| VfsTree.AttachOk | src/vfs.c:295-301 | Parent, child and sibling pointers are still a tree after a node is attached |
| VfsTree.DetachOk | src/node.c:17-33 | And after a childless node is unlinked |
| VfsCalls.Vfs.Open | src/vfs.c:706-758 | Success adds one open file, failure none; the node opened is where the path leads, or the created file below its parent, and the path leads to it afterwards; an existing file is opened if and only if the conditions of OpenExact hold; counts equal holders; the result and the file system follow from what the path leads to |
| VfsCalls.Vfs.Creat | src/vfs.c:599-704 | The same for creat: an existing file is opened, for which the code asserts that there is a descriptor; a missing name in a directory is made, and the path then leads to the new node; everything else is the error the code gives |
| VfsCalls.Vfs.CreatIn | src/vfs.c:575-597 | The new file's node hangs below its parent, with the name and the inode number, is counted once, and the cache is true of the file system that has it |
| VfsCalls.OpenExact | src/vfs.c:760-842 | Without O_CREAT, as both callers pass the flags on: opening succeeds if and only if access is allowed and either O_DIRECTORY is set, it is a directory and opendir answers 0, or it is not set, it is no directory, not both O_EXEC and write access are asked for, O_APPEND is not, and truncate (if asked for) and open answer 0; when exactly each of -EACCES, -ENOTDIR, -EISDIR and -EINVAL comes, in the order of the code; without O_EXEC the access mode does not matter |
| VfsCalls.CreationExact | src/vfs.c:599-704 | A path that leads nowhere: the file is made if and only if the parent is there, is a directory and writable and the file system makes it; when each error comes, and that success also takes a descriptor and an open that succeeds |
| VfsCalls.MakingExact | src/vfs.c:1142-1241 | The same for mkdir: success, the change to the file system, and each error |
| VfsCalls.Vfs.Mkdir | src/vfs.c:1142-1241 | Counts equal holders after every way mkdir can end, the file system changes only on success, and then the path leads to the new directory |
| VfsCalls.Vfs.Close | src/vfs.c:844-854 | One open file fewer, counts equal holders |
| VfsCalls.Vfs.Stat | src/vfs.c:877-896 | Holders are as before, and the result depends only on what the path leads to, from the working directory, without a cache |
| VfsCalls.Vfs.Access | src/vfs.c:1243-1278 | The same for access |
| VfsCalls.Vfs.SetCwd | src/vfs.c:18-43 | The result is exactly: what lookup fails with, else -ENOTDIR, else the refusal, else 0; the working directory changes hands only on success, to the position the path leads to; counts equal holders. From then on a relative path q leads where path/q led before (as LookupFrom says), and an absolute one where it did |
| VfsCalls.Vfs.ChdirStat | src/vfs.c:18-51 | After a change of directory along p, stat of q answers as a lookup of p/q would have done before |
| VfsCalls.UnrefRefs | src/node.c:86-112 | Freeing what one use less leaves unused removes no holder's vnode |
| VfsCalls.HeldStays | src/node.c:41-112 | Every vnode that an open file or the working directory uses is there, with all its ancestors |
| VfsCalls.FileCoherent | src/vfs.c:575-597 | A new file under a fresh name contradicts nothing cached |
| VfsRemove.Unlink | src/vfs.c:975-1051 | Before the call it can be told whether a successful unlink leaves the cache true: if and only if no open file and not the working directory uses the file, in a file system where inodes have one name each (NamesAreLinks) and for a path that does not step through the root's "."; removing the working directory fails with one use too many; all other failures leave everything as it was |
| VfsRemove.PathGone | src/vfs.c:975-1051 | After the name a path ends with was removed, the path leads nowhere |
| Mirrors.OpenFileStale | src/vfs.c:999-1051 | A concrete failing case on a file system as a volume has it: "/a" is open, its name goes, and the cache answers where the file system has nothing |
| VfsRemove.StaleExact | src/vfs.c:975-1051 | The cache is true after a removal if and only if no node stands for the removed name or directory |
| Mirrors.RunMirrors | src/ext2/ext2vnop.c:59-281 | After any run on a clean volume, what the VFS takes the file system to say is what the directories on the device say |
| Mirrors.StepMirrors | src/ext2/ext2vnop.c:59-281 | The same for one call |
| Mirrors.PathOnDevice | src/vfs.c:191-323 | Looking up any path, with "." and ".." and from any place the names lead to, finds inode x if and only if the records of the directories on the device lead to x |
| Mirrors.RunLookup | src/vfs.c:191-323 | After any run, a lookup through the cache, whatever is in it, from any node in it and for any path, ends at inode x if and only if the records on the device lead there |
| Mirrors.LookupOnDevice | src/vfs.c:191-323 | The same for any volume whose directories the file system answers from |
| Mirrors.FreeIsFresh | src/ext2/ext2vnop.c:226-230 | An inode number the allocator can hand out has no name anywhere, as the VFS relies on |
| Mirrors.NameIsSole | src/vfs.c:1027-1035 | In a clean volume a file has no second name in its directory, as the removal relies on |
| Mirrors.NamesAreLinks | src/vfs.c:1027-1035 | In a clean volume every inode has one name besides "." and "..", as the condition of VfsRemove.Unlink asks |
| Mirrors.BareHoldsNothing | src/ext2/ext2vnop.c:566-596 | And a directory that the driver does not refuse to unlink has no names in it |
| Paths.PathElement | src/vfs.c:145-161 | The first element and the rest: together they give the path's elements in order |
| Paths.ElementsConcat | src/vfs.c:145-161 | The elements of p/q are those of p and then those of q, whatever slashes they begin or end with |
| Paths.BaseElements | src/vfs.c:145-161 | A path without slashes is its one element |
| Paths.ParentAndBase | src/vfs.c:550-573 | Parent and last component put together are the path again |
| Paths.ElementsOfParent | src/vfs.c:550-573 | The elements of a path are those of its parent and then the last component |
| Hash.Hash.Put | src/hash.c:26-62 | The map is updated at the key and nowhere else; the count is the map's size; an overwritten value goes to valfree once |
| Hash.Hash.Get | src/hash.c:64-77 | The key's value, or -1 if and only if it has none |
| Hash.Hash.Del | src/hash.c:79-109 | The key is gone and nothing else; -1 if and only if it was not there; its key goes to keyfree and its value to valfree once |
| Hash.Hash.constructor | src/hash.c:19-24 | An empty table |
| Hash.AppendOk | src/hash.c:53-61 | Linking a new last entry keeps the chains, and keys distinct |
| Hash.RemoveOk | src/hash.c:87-93 | Unlinking an entry keeps them |
| Hash.MapsOnce | src/hash.c:38-49 | Equal keys have one value, so the table stands for a map |
| Hash.PutMeans | src/hash.c:26-62 | What changing one entry does to the map |
| Hash.Balances | src/hash.c:26-109 | The values put in are those freed and those held, each exactly once, after each call |

## Left out

Assumptions about the volume and the machine:

- Bit shifts: `1 << k` on a 64-bit word is read as bit k of that word; in C it is an int shift, undefined from k = 32 on.
- Volumes have their padding bits set, no holes in files, no records of inode 0, and a block size below 65536; block_count * block_size fits 32 bits. These are part of `Valid`, of the directories' shape or of `Fsck.Ok`.
- The blocks of the descriptor table's span hold nothing else; the driver computes one block too many when 32 * groups is a multiple of the block size.
- A mounted superblock's derived fields (block size, group count, table place and size) are a separate record; in C they share the structure whose 1024 bytes go to the device.
- The device is a sequence of blocks; `Mounting` proves the byte addresses. Device errors and allocation failure of memory do not occur, so the branches for them are not there.
- `sizeof(struct dirent)`, which the driver adds to a record's need, is the parameter `reserved`; the bytes behind the first 128 of a new inode, which the driver does not set, are the parameter `rest`.
- Files that are written, truncated or unlinked have at most twelve blocks (beyond, the driver aborts); reading also goes through the single indirect block. The indirect block itself is not in the ownership map.
- Names have 1 to 255 bytes and no NUL; path elements at most 255.

What is stated with a condition:

- VnodeWrite.Write: a write that would put a whole block at once or go beyond the twelfth block aborts and is excluded, and so is a size within a block of 2^32, where counting the blocks wraps (`Carried`); the file's contents are claimed for the writes `WriteSafe` describes, which `Files.WriteSizeExact` shows to be exactly those whose size comes out right.
- VnodeFiles.Read: the blocks asked for are either data blocks or pointers that are 0.
- Aheads.RetryExact: there is one direct pointer to spare.
- Mounting.Mount: the group size is not 0 and the whole descriptor table is on the device; the code does not look at what reading it returns.
- Layout.GeometryFits: block sizes from 2^31 on, where the shift overflows an int.
- VnodeUnlink.Unlink: of a regular file or a directory of at most twelve blocks that is in the given directory; other callers' blocks would be freed twice.
- Runs.RunKeeps: the caller of creat and mkdir has looked the name up, as the VFS does; writes of the kinds `WriteSafe` excludes are not steps; neither are truncate and unlink through a vnode whose inode is ahead of the device, where the driver would give back block 0, nor the writes `Aheads.AheadWriteExact` shows to do harm, nor truncates `Overlong.TruncateCleanExact` shows to. The file of a step has a name: calls through a vnode whose file was unlinked while open, or whose number was given out again, are not steps.
- VfsRemove.Unlink: the path's last component is the found file's one name in its directory; paths that end in "." or ".." are an open question in the code too. The driver's part of the call is `VnodeUnlink.Unlink`; here it is a parameter that succeeds only on directories that hold nothing.
- VfsCalls.Vfs.Open: the file system's own answers (permission, open, truncate, creation) are parameters. With O_DIRECTORY the code asserts read-only access and no O_TRUNC; the results are stated as if it did not.
- VfsCalls.LookupFrom: where p ends with a ".." at the root and q begins with ".", positions may differ, and without an entry "." in the root nothing may be found; `Walks.ConcatExact` has the exact condition on p.
- VfsLookup.FindTree: trees without mount points and symbolic links; the code aborts when it walks through a link that is cached, and does not end on links that form a cycle.
- Hash.Hash.Put: keydup is a function whose copies equal the key; that no key is handed to keyfree twice is not stated, as copies of a key are not told apart.

What is not modelled:

- Mounting and unmounting nested file systems, symbolic links (including readlink and symlink of the driver, which disagree at length 60), chmod, chown, statvfs, stat's fields, permission bits.
- The shell, the printing, the path printer called from vnode_unref and its depth limit, the stdio block device.
- A vnode and its tree node are one record, and all nodes are a map from addresses to records; the cascade frees a node before it looks at the parent, which the code does after.
- 32-bit wrap-around of reference counts and of the hash table's item count.
- Opening and reading directories through the VFS beyond readdir, vfs_statat, and locking, of which there is none.
- The single round of the loops in write is written as a conditional: with a piece shorter than a block they run at most once.
