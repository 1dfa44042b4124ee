# Sapphire: what its storage, sync and fader code promise

This project models parts of the Sapphire operating system and its Chromatron pixel library, written in C for small
microcontrollers, and proves what those parts promise. `dafny verify dfyconfig.toml` checks all of it.

**The flash file system** is the main part. The chip (`Flash25`) is a byte array in which an erase sets a 4 KB block
to ones and a program can only clear bits. `FfsBlock` keeps free, dirty and file lists threaded through one array of
links, doubled block headers and an index cache. `FfsPage` maps the pages of a file to slots through an append-only
index per block, with a one-page cache, and copies a block when its slots run out. `FlashFs` turns that into reads
and writes of bytes, `FfsMount` rebuilds everything from the flash, `FfsGc` erases dirty blocks and levels wear.
`FfsLayout`, `FfsLists`, `FfsIndex`, `FfsFile`, `FfsStore` and `FfsCost` say what the concrete state means, over
plain values: `View` decodes the bytes of an erase block, `chains` are the lists that the links spell out, `raws`
are the bytes of each file, and `Stored` ties the three together. The classes carry those values as ghost fields.
The main results: every operation keeps `FlashFs.Valid` and moves the abstract state, `State()`, as a `Disk` of
bytes, meta pages, free slots and free blocks should; no block is ever lost; every program lands on erased cells;
the caches stay right; in every valid state each page of each file is in the bytes of the chip where `FfsFormat` says,
with its checksum (`Crc`); the garbage collector ends although its own bookkeeping makes work for it; a restart from the
flash alone gives the same files, and no flash image can be read in two ways; any session from an erased chip on
follows the abstract state machine `Follows` (`FfsSession`); whether a write will find the free blocks it needs is
known from the state before it.

**The configuration store** (`ConfigSlots`, `Config`) keeps 8-byte chunks of parameters in unordered EEPROM slots.
The EEPROM is written byte by byte and the supply may fail before any byte; the image left is then cleaned at the
next boot, which may be cut short itself. What is left of a set is then a prefix of its new chunks followed by old
ones, and nothing else has changed; a read gives exactly that (`Config.SetCutGet`).

**Frame-master election** (`TimeSync`): one node as a class, then any number of nodes and any network traffic.

**The bytecode interpreter**: `VmOps` says from the code bytes what each instruction does, `VmCore` how runs with calls
end within one budget of instructions.

**Smaller parts with arithmetic**: the pixel faders (`Faders`), the calendar and its text form (`DateTime`), the linked
list (`LinkedList`).

A failed ASSERT halts the system; it is a possible outcome of a call where the code can get there (`AssertFailed`)
and a precondition where only a wrong argument could trip it. What the code does is followed where it differs from
what its comments promise:

- A value longer than 255 bytes does not survive the configuration store, because its length is narrowed to 8 bits;
  a 512-byte string is not stored at all (`ConfigSlots.LongIsLost`). `ConfigSlots.ChunksReach` and
  `ConfigSlots.StoredReads` give the exact condition.
- The cleaner keeps the lowest copy of a chunk even when only a higher copy is usable, and then keeps neither
  (`ConfigSlots.GoodCopyLost`); `ConfigSlots.CleanedLookup` says what it keeps of any image.
- A write cut in a chunk's id can leave a chunk of another parameter, if the half-written id happens to be that of a
  registered key (`ConfigSlots.TornAppears`); without such a key it cannot (`ConfigSlots.CutPrefix`).
- An array instruction on more than 65535 elements never ends, because its 16-bit counter wraps around
  (`VmCore.TurnsOn`, `VmCore.Hangs`); `VmCore.HangsIff` says that nothing else can hang a program.
- A hue can overshoot its target by less than a step when its way crosses the wrap (`Faders.HueOvershoots`);
  `Faders.OvershootIff` says exactly when it does.
- A printed year parses back exactly when it has four digits (`DateTime.YearBack`).
- A write that finds no free block does not report an error: the negative status is narrowed to a block number and
  the next ASSERT fails (`FfsSession.FillChip`). `FlashFs.FlashFs.Write` says exactly when: when fewer blocks are
  free than `FfsCost.Cost` computes from the free slots of the file's blocks, its number of pages and the window
  written.

## Model

| member | source | states |
|---|---|---|
| Flash25.ProgramErased | src/sapphireos/flash25.c:267-431 | programming an erased NOR cell stores the byte |
| Flash25.ProgramMasked | src/sapphireos/flash25.c:267-431 | programming a byte with some bits cleared over itself stores that byte: clearing a flag never needs an erase |
| Flash25.ProgramBits | src/sapphireos/flash25.c:267-431 | programming leaves exactly the bits set that are set in both bytes, so it can only clear bits |
| Flash25.AndBitsAt | src/sapphireos/flash25.c:267-431 | the bitwise AND, bit by bit |
| Flash25.BitsUnique | src/sapphireos/flash25.c:267-431 | a byte is determined by its bits, so saying each bit says the byte |
| Flash25.Chip.Read | src/sapphireos/flash25.c:156-183 | a read gives exactly the addressed bytes |
| Flash25.Chip.Write | src/sapphireos/flash25.c:267-431 | a bit of an addressed byte is set afterwards exactly when it was set before and is set in the data; every other byte stays |
| Flash25.Chip.Erase4k | src/sapphireos/flash25.c:433-463 | an erase sets one block to all ones and leaves every other block alone |
| FfsLayout.BlankIsErased | src/sapphireos/ffs_block.c:160-205 | a block reads as blank only when every one of its 4096 bytes is erased |
| FfsLayout.ProgramSlot | src/sapphireos/ffs_page.c:657-658 | programming an erased page slot stores the page and changes neither header nor any other slot |
| FfsLayout.ProgramHeaders | src/sapphireos/ffs_block.c:583-597 | programming both header copies alike keeps them equal and touches no slot |
| FfsLayout.ProgramIndex | src/sapphireos/ffs_block.c:648-671 | setting a free index entry in both copies changes that entry of the index and nothing else |
| FfsLayout.ProgramMeta | src/sapphireos/ffs_block.c:583-597 | writing the meta header of an erased block gives that header |
| FfsLayout.ProgramFlags | src/sapphireos/ffs_block.c:472-501 | clearing the not-dirty flag changes the flags byte and nothing else |
| FfsLayout.MaskDirty | src/sapphireos/ffs_block.c:472-501 | masking the flags takes their top bit away and leaves the other seven: 0xbf becomes 0x3f |
| FfsLists.AppendKeeps | src/sapphireos/ffs_block.c:251-297 | linking an unlisted block at the end of one list keeps all lists linked, acyclic and disjoint in the shared next array |
| FfsLists.PopKeeps | src/sapphireos/ffs_block.c:207-249 | taking the head off one list keeps all the others, and the block is then on no list |
| FfsLists.ReplaceKeeps | src/sapphireos/ffs_block.c:299-326 | putting an unlisted block in the place of another keeps every list |
| FfsLists.ChainBound | src/sapphireos/ffs_block.c:402-419 | no list is longer than the number of blocks, so list sizes fit 8 bits and list walks end |
| FfsLists.Conservation | src/sapphireos/ffs_block.c:207-364 | the lengths of all lists together add up to the number of blocks |
| FfsIndex.AppendEntry | src/sapphireos/ffs_block.c:648-671 | entering a page in the first free slot keeps the index append-only and makes that slot the newest of its page and of no other |
| FfsIndex.OneSlotFewer | src/sapphireos/ffs_block.c:673-716 | an entry in the first free slot costs exactly one free slot |
| FfsIndex.FullMeansNone | src/sapphireos/ffs_page.c:585-603 | an index has no first free slot exactly when it counts no free slot |
| FfsFile.SplicePage | src/sapphireos/ffs_page.c:638-652 | the page after a write is the old page with the data laid over it, grown at its end |
| FfsFile.SplicePages | src/sapphireos/flash_fs.c:542-576 | a write within one page changes the bytes of no other page |
| FfsFile.LocatedHolds | src/sapphireos/ffs_page.c:836-880 | the newest index entry of the right block leads to the bytes of a page, and past the end of the file to nothing |
| FfsFile.WithPageHolds | src/sapphireos/ffs_page.c:657-664 | a block with a fresh version of one page appended holds the new bytes of that page and the old ones of the rest |
| FfsFile.OtherBlockHolds | src/sapphireos/ffs_page.c:524-691 | a write to a page of one block leaves what the other blocks hold alone |
| FfsFile.BuiltHolds | src/sapphireos/ffs_page.c:613-655 | the page image built in the cache has the right length, bytes and checksum for the new file, for a partial overwrite, an extension, a new page and a full overwrite of a stale cache |
| FfsFile.RoomIsErased | src/sapphireos/ffs_page.c:585-611 | the slot chosen for a write is marked free and erased |
| FfsFile.CopiedHolds | src/sapphireos/ffs_page.c:772-833 | a finished copy holds the same pages in slots 0 up, has an identity index and at least eight free slots |
| FfsFile.CopiedCount | src/sapphireos/ffs_page.c:772-833 | a finished copy holds exactly as many pages as the file has in that block, and so leaves all other slots free |
| FfsFile.HighestIsLast | src/sapphireos/ffs_page.c:320-383 | the highest page in the index of the last block is the last page of the file |
| FfsFile.UsedEntryHasPage | src/sapphireos/ffs_block.c:673-716 | every used index entry names a page that the file has |
| FfsStore.AllocStored | src/sapphireos/ffs_page.c:695-733 | moving the first free block to the end of a file keeps what every file holds |
| FfsStore.BlockChanged | src/sapphireos/ffs_page.c:657-664 | a page written to one block of a file changes that file as told and no other, and keeps free and dirty blocks as they are |
| FfsStore.ReplaceStored | src/sapphireos/ffs_page.c:735-769 | a copy in the place of a block, the old one marked dirty, keeps what every file holds |
| FfsStore.EraseStored | src/sapphireos/ffs_block.c:508-529 | a dirty block erased and freed keeps what every file holds, and free blocks are blank |
| FfsStore.DeleteStored | src/sapphireos/ffs_page.c:426-448 | moving the blocks of a file to the dirty list removes that file and keeps every other |
| FfsStore.CoherentAlloc | src/sapphireos/ffs_page.c:695-733 | a page cache that is the current version of its page stays so when a file grows |
| FfsStore.CoherentReplaced | src/sapphireos/ffs_page.c:735-769 | the same when a block is replaced: a reader finds the same slot contents |
| FfsStore.CoherentDeleted | src/sapphireos/ffs_page.c:426-448 | the same for the pages of the other files when one is deleted |
| FfsStore.CoherentErased | src/sapphireos/ffs_block.c:508-529 | the same when a dirty block is erased |
| FfsStore.AllocKeeps | src/sapphireos/ffs_page.c:695-733 | no block is lost from the lists by an allocation |
| FfsStore.ReplaceKeepsAll | src/sapphireos/ffs_page.c:735-769 | no block is lost by a replacement |
| FfsStore.EraseKeeps | src/sapphireos/ffs_block.c:508-529 | no block is lost by an erase |
| FfsStore.DeleteKeeps | src/sapphireos/ffs_page.c:426-448 | no block is lost by a delete |
| FfsStore.KeepsCovering | src/sapphireos/ffs_block.c:207-364 | if no block is lost from the lists, free, dirty and file lists together still cover all blocks |
| FfsStore.StepTakesOne | src/sapphireos/ffs_page.c:524-691 | a page write takes at most one free block and makes at most one block dirty |
| FfsStore.AllocSlots | src/sapphireos/ffs_page.c:695-733 | an allocation adds 59 free slots to a file and leaves those of its other blocks |
| FfsStore.ReplaceSlots | src/sapphireos/ffs_page.c:735-769 | a replacement changes the free slots of the block replaced and of no other |
| FfsStore.FreeElsewhere | src/sapphireos/ffs_page.c:524-691 | a step that leaves the lists and blocks of the other files alone leaves the free slots of the other files |
| FfsCost.CostGrows | src/sapphireos/flash_fs.c:542-576 | writing more pages never costs fewer free blocks |
| FfsCost.CostWithin | src/sapphireos/ffs_page.c:524-691 | pages of one block cost nothing while that block has free slots |
| FfsCost.CostOfNew | src/sapphireos/ffs_page.c:524-691 | writing m pages to a new file costs (m + 1) / 51 free blocks, and what slots are free afterwards |
| FfsBlock.ScanInfo | src/sapphireos/ffs_block.c:673-716 | one pass over an index gives its first free slot, its number of free slots, its highest page and that page's newest slot |
| FfsBlock.BlockDriver.Alloc | src/sapphireos/ffs_block.c:207-227 | takes the first free block off the free list, or answers invalid exactly when there is none; list heads, counters and every other list stay right |
| FfsBlock.BlockDriver.GetDirty | src/sapphireos/ffs_block.c:229-249 | the same for the dirty list |
| FfsBlock.BlockDriver.AddToList | src/sapphireos/ffs_block.c:251-297 | appends an unlisted block to a list, with its head and counter, and changes no other list |
| FfsBlock.BlockDriver.ReplaceInList | src/sapphireos/ffs_block.c:299-326 | puts a block in the place of the k-th one of a list and changes no other list |
| FfsBlock.BlockDriver.IsInList | src/sapphireos/ffs_block.c:366-400 | answers exactly whether the block is on the list |
| FfsBlock.BlockDriver.ListSize | src/sapphireos/ffs_block.c:402-419 | counts the list, at most 254 |
| FfsBlock.BlockDriver.GetBlock | src/sapphireos/ffs_block.c:421-437 | the index-th block of a list, or invalid past its end |
| FfsBlock.BlockDriver.ReadFlags | src/sapphireos/ffs_block.c:448-470 | the flags byte |
| FfsBlock.BlockDriver.SetDirty | src/sapphireos/ffs_block.c:472-501 | takes the top bit of the flags away in both headers, so that 0xbf becomes 0x3f, appends the block to the dirty list and changes nothing else |
| FfsBlock.BlockDriver.Erase | src/sapphireos/ffs_block.c:508-529 | makes the block blank, appends it to the free list, drops it from the index cache and changes nothing else |
| FfsBlock.BlockDriver.ReadMeta | src/sapphireos/ffs_block.c:531-581 | the meta header, with success exactly when it names a possible file and block |
| FfsBlock.BlockDriver.WriteMeta | src/sapphireos/ffs_block.c:583-597 | gives an erased block that header and succeeds |
| FfsBlock.BlockDriver.ReadIndex | src/sapphireos/ffs_block.c:599-646 | the index in flash, through a cache that always equals the index of the block it names |
| FfsBlock.BlockDriver.SetIndexEntry | src/sapphireos/ffs_block.c:648-671 | enters a page in a free index slot, in flash and cache, and succeeds |
| FfsBlock.BlockDriver.GetIndexInfo | src/sapphireos/ffs_block.c:673-716 | free slots and last page of a block's index |
| FfsBlock.BlockDriver.ReadSlot | src/sapphireos/ffs_page.c:502-503 | the contents of a page slot |
| FfsBlock.BlockDriver.WriteSlot | src/sapphireos/ffs_page.c:657-658 | stores a page in an erased slot and changes nothing else |
| FfsPage.ScanIndex | src/sapphireos/ffs_page.c:855-880 | a backward scan of an index finds the most recent entry of a page, or none |
| FfsPage.PageDriver.PageLocated | src/sapphireos/ffs_page.c:836-880 | every page of an existing file is found by the newest entry of its block, with the bytes it should have; no other page is found |
| FfsPage.PageDriver.HitHolds | src/sapphireos/ffs_page.c:465-473 | a hit in a coherent page cache is the page itself |
| FfsPage.PageDriver.SeekPage | src/sapphireos/ffs_page.c:836-880 | finds block and slot of the current version of a page, or EOF exactly past the end of the file |
| FfsPage.PageDriver.PageRead | src/sapphireos/ffs_page.c:465-521 | a hit is trusted; a miss brings in the current version with its checksum verified, or empties the cache at the end of the file |
| FfsPage.PageDriver.ReadCoherent | src/sapphireos/ffs_page.c:465-521 | with a coherent cache, reading gives the bytes of the page, or EOF exactly past the end, and keeps the cache coherent |
| FfsPage.PageDriver.AllocBlock | src/sapphireos/ffs_page.c:695-733 | takes the first free block, writes its meta header with file, position, the valid flags and sequence number 0, and appends it; or changes nothing when there is none |
| FfsPage.PageDriver.CopyPage | src/sapphireos/ffs_page.c:789-820 | copies one page into the new block, or stops at the end of the file |
| FfsPage.PageDriver.BlockCopy | src/sapphireos/ffs_page.c:772-833 | the copy holds the pages of the source under the next sequence number, a reader finds the same slot contents, at least eight slots are free, and only the new block changes |
| FfsPage.PageDriver.ReplaceBlock | src/sapphireos/ffs_page.c:735-769 | moves exactly one block from free to the file and one from the file to dirty; every file keeps its bytes and the cache its coherence; or changes nothing when no block is free |
| FfsPage.PageDriver.AppendBlock | src/sapphireos/ffs_page.c:557-570 | appends a block to an existing file, if one is free |
| FfsPage.PageDriver.GrowTo | src/sapphireos/ffs_page.c:529-575 | the list reaches the block of the page after appending at most one block; the system halts exactly when a block is needed and none is free |
| FfsPage.PageDriver.FindSlot | src/sapphireos/ffs_page.c:577-611 | an erased slot in the block of the page, after a replacement exactly when the block is full; the system halts when it is full and no block is free |
| FfsPage.PageDriver.ProgramPage | src/sapphireos/ffs_page.c:657-664 | programs the new version into an erased slot, enters it in the index, and the file holds the new bytes |
| FfsPage.PageDriver.FinishWrite | src/sapphireos/ffs_page.c:666-683 | rereads the page just written with its checksum and raises the file size to its end |
| FfsPage.PageDriver.CommitPage | src/sapphireos/ffs_page.c:613-683 | from a free slot on: the file becomes the old one with the data spliced in |
| FfsPage.PageDriver.MakeRoom | src/sapphireos/ffs_page.c:529-611 | a block with a free slot for the page; a free block is spent exactly when there was no such slot |
| FfsPage.PageDriver.PageWrite | src/sapphireos/ffs_page.c:524-691 | splices up to 64 bytes into one page; all other bytes and files stay; it halts exactly when the page needs a block and none is free, with nothing changed; otherwise one block is allocated or replaced exactly when needed, the free slots afterwards follow from those before, and those of all other files stay |
| FfsPage.PageDriver.NeedsIs | src/sapphireos/ffs_page.c:529-611 | whether a page needs a block follows from the number of the blocks of a file and their free slots |
| FfsPage.PageDriver.Conserved | src/sapphireos/ffs_block.c:207-364 | in every valid state free, dirty and file blocks add up to the number of blocks |
| FfsPage.PageDriver.ListFacts | src/sapphireos/ffs_page.c:529-544 | the number of blocks of a file follows from its size, and the dirty counter is the length of the dirty list |
| FfsPage.PageDriver.Owner | src/sapphireos/ffs_gc.c:194-213 | a block that is neither free nor dirty is block k of some file f, and its header says f and k |
| FfsPage.PageDriver.PageCreate | src/sapphireos/ffs_page.c:386-424 | takes the lowest free file id and one free block, or reports which of the two is missing |
| FfsPage.PageDriver.PageDelete | src/sapphireos/ffs_page.c:426-448 | frees the id, moves all blocks of the file to the dirty list in order, and keeps every other file |
| FfsPage.PageDriver.DirtyAll | src/sapphireos/ffs_page.c:430-441 | the walk over a list whose links are overwritten on the way marks exactly its blocks dirty |
| FfsFormat.PageOnFlash | src/sapphireos/ffs_page.c:836-880 | where page p of a file is in the bytes of the chip: in the block p / 51 of the file, whose two equal headers carry file, 0xbf and position; the last index entry p mod 51 leads to a slot of 67 bytes with length, data and checksum |
| FfsFormat.BlockShows | src/sapphireos/ffs_block.h:47-68 | the same for one erase block |
| FfsFormat.FreeOnFlash | src/sapphireos/ffs_block.c:160-205 | a free block is 0xff throughout |
| FfsFormat.DirtyOnFlash | src/sapphireos/ffs_block.c:472-501 | a dirty block has the top bit of its flags clear, in both headers |
| Crc.StepBits | src/hal/sim/crc.c:105-178 | the register moves up one bit and feeds its top bit back at 0, 5 and 12 |
| Crc.CrcDetects | src/hal/sim/crc.c:105-178 | any change within two neighbouring bytes changes the checksum |
| Crc.Residue | src/hal/sim/crc.c:105-178 | data with their checksum behind them, high byte first, leave zero in the register, which fixes initial value, trailing zeros and byte order |
| FfsMount.ScanBlocks | src/sapphireos/ffs_block.c:119-154 | the mount scan puts blocks on the free and dirty lists by their flags, in physical order |
| FfsMount.VerifyFreeSpace | src/sapphireos/ffs_block.c:160-205 | with all free blocks erased the check passes and changes nothing |
| FfsMount.BlockInit | src/sapphireos/ffs_block.c:76-158 | builds the free and dirty lists of whatever is on the flash, in fresh RAM |
| FfsMount.KindListed | src/sapphireos/ffs_block.c:119-154 | the header of a block tells the list it was on |
| FfsMount.ListedByKind | src/sapphireos/ffs_page.c:122-149 | every block was on the list its header tells |
| FfsMount.CollectFiles | src/sapphireos/ffs_page.c:122-149 | the page mount collects the blocks of each file in physical order |
| FfsMount.MapFile | src/sapphireos/ffs_page.c:162-222 | without duplicates the per-file map gets block number k at entry k, whatever order the blocks are met in |
| FfsMount.RelinkFile | src/sapphireos/ffs_page.c:224-237 | relinking by the map gives the block order that the file had |
| FfsMount.ScanFileSize | src/sapphireos/ffs_page.c:320-383 | the size computed from the last page in the last block is the size that the file had |
| FfsMount.FileScan | src/sapphireos/ffs_page.c:274-318 | the consistency scan of a file passes |
| FfsMount.MountedStore | src/sapphireos/ffs_page.c:111-257 | when every file is in order again, the store is whole and no block is lost |
| FfsMount.PageInit | src/sapphireos/ffs_page.c:111-257 | rebuilds the file table: same files, sizes, bytes and block order |
| FfsMount.Mount | src/sapphireos/flash_fs.c:83-88 | mounting flash that holds given files, from arbitrary RAM, ends in a valid driver with exactly those files, each with its blocks in order |
| FfsMount.ValidOnFlash | src/sapphireos/ffs_page.c:111-257 | every valid state of the driver is one that can be mounted: the flash alone holds it |
| FlashFs.FlashFs.constructor | src/sapphireos/flash_fs.c:44-88 | a mounted driver whose files have their meta pages is a valid file system |
| FlashFs.FlashFs.GetFileSize | src/sapphireos/flash_fs.c:206-250 | the length of the file behind its meta pages, or a negative status exactly when there is no such file |
| FlashFs.FlashFs.CreateFile | src/sapphireos/flash_fs.c:300-352 | a new empty file under the lowest free id; its first meta page is the name byte by byte up to the first zero byte or 32, zeros from there to 31 and 0xff behind; bytes, meta pages and free slots of every other file unchanged; refused, with the status of the missing one, exactly when no id or no block is free |
| FlashFs.Meta0Holds | src/sapphireos/flash_fs.c:319-322 | every byte of the page that holds the name |
| FlashFs.NamesDiffer | src/sapphireos/flash_fs.c:319-322 | two different names of at most 32 bytes and no zero byte give different pages |
| FlashFs.FlashFs.WriteMetaPages | src/sapphireos/flash_fs.c:319-339 | the two meta pages come out right even when the page cache still names a page of an older file with the same id |
| FlashFs.FlashFs.DeleteFile | src/sapphireos/flash_fs.c:354-391 | removes exactly that file: bytes, meta pages and free slots of all others stay |
| FlashFs.FlashFs.Read | src/sapphireos/flash_fs.c:393-496 | any window inside the file gives exactly those bytes; past the end EOF; a window that reaches past the end is an error, or an ASSERT when the file fills the chip |
| FlashFs.FlashFs.ReadChunk | src/sapphireos/flash_fs.c:436-493 | one turn of the read loop gives a non-empty piece of the file |
| FlashFs.FlashFs.Write | src/sapphireos/flash_fs.c:498-579 | splices the data in at any position up to the size, extending at the end; all other bytes, all meta pages and the free slots of all other files unchanged; it gets to the end exactly when at least as many blocks are free as the write costs, computed from the state before, and takes exactly that many; if not, it halts at the first page for which none is left, with exactly the data before that page written |
| FlashFs.FlashFs.WriteLoop | src/sapphireos/flash_fs.c:542-576 | the loop behind it, page by page, with the free blocks and slots it uses up and the page at which it halts |
| FlashFs.FlashFs.WriteTurn | src/sapphireos/flash_fs.c:542-576 | one turn of the loop keeps the account of what has been written and spent since the start |
| FlashFs.FlashFs.WriteChunk | src/sapphireos/flash_fs.c:542-576 | the part of the data that falls into one page; halts exactly when that page needs a block and none is free, and otherwise says which block it costs |
| FlashFs.FlashFs.BlockCounts | src/sapphireos/flash_fs.c:206-250 | how many blocks a file has follows from its length |
| FlashFs.FlashFs.StateSized | src/sapphireos/flash_fs.c:206-250 | the number of blocks and pages of every file follows from its length |
| FlashFs.FlashFs.Accounted | src/sapphireos/ffs_block.c:207-364 | the number of dirty blocks follows from the free ones and those of the files |
| FlashFs.SpliceSplice | src/sapphireos/flash_fs.c:542-576 | writing on where the last write ended is writing both pieces at once |
| FlashFs.StopsShort | src/sapphireos/flash_fs.c:542-576 | a write that stops before its last page would have cost more blocks than were free |
| FfsGc.GarbageCollector.Prepare | src/sapphireos/ffs_gc.c:77-99 | an empty counter file gets one zero counter per block, any other is left alone; what the counters cost is known from the state before, it halts exactly when that many blocks are not free, and then with exactly the counters that could be paid for; all other files stay |
| FfsGc.GarbageCollector.EraseOne | src/sapphireos/ffs_gc.c:107-114 | the first dirty block becomes the last free one; files, free slots and caches untouched |
| FfsGc.GarbageCollector.Record | src/sapphireos/ffs_gc.c:116-133 | adds one to one 32-bit counter and touches no other file; with a block free it cannot fail, and costs a slot or, when none is free, a block |
| FfsGc.GarbageCollector.EraseAndRecord | src/sapphireos/ffs_gc.c:105-134 | an erase and, if the counter file opens, its record: even when that leaves another dirty block, less is owed than before |
| FfsGc.GarbageCollector.Drain | src/sapphireos/ffs_gc.c:103-136 | ends with no dirty block although recording can dirty more: every block that was dirty is erased, at most (8d+7)/7 erases in all, counters grow by exactly the recorded erases, no file changes its block count, no other file its bytes, meta pages or free slots, and afterwards as many blocks are free as were free or dirty before |
| FfsGc.GarbageCollector.Extremes | src/sapphireos/ffs_gc.c:170-189 | the first least worn block and the distance of the most worn from it |
| FfsGc.GarbageCollector.WearLevel | src/sapphireos/ffs_gc.c:141-220 | no file changes; the least worn block is replaced exactly when the wear can be looked at, differs by more than 1024, the block holds file data and a block is free |
| FfsGc.GarbageCollector.Swap | src/sapphireos/ffs_gc.c:191-217 | the block is replaced in the file it belongs to, unless it is free or dirty |
| FfsGc.GarbageCollector.Turn | src/sapphireos/ffs_gc.c:96-222 | one turn of the thread: nothing below eight dirty blocks; otherwise every block that was dirty is erased, the counters grow by the recorded erases, all other files stay, and every 64th pass that can look at the wear moves the least worn file block, which alone may then be dirty |
| FfsSession.FlashDetermines | src/sapphireos/ffs_page.c:111-257 | one flash image cannot hold two different sets of files: ids, block order, sizes, bytes and the free and dirty sets all follow from it |
| FfsSession.Restart | src/sapphireos/flash_fs.c:44-88 | after throwing the RAM away and mounting again, in objects that share nothing but the chip with those before, all files and their meta pages are as they were, with the same blocks and free slots, and the same blocks are free and dirty |
| FfsSession.CreateRestart | src/sapphireos/flash_fs.c:300-352 | a file created just before a restart is there after it, with every byte of its name |
| FfsSession.MountBlank | src/sapphireos/flash_fs.c:44-88 | an erased chip mounts as an empty file system with all blocks free |
| FfsSession.SpliceWindow | src/sapphireos/flash_fs.c:393-579 | a window inside the written range is the new data, one outside it is the old |
| FfsSession.WriteRestartRead | src/sapphireos/flash_fs.c:393-579 | what was written reads back, also across a restart; it is written exactly when its cost is covered by the free blocks |
| FfsSession.Perform | src/sapphireos/flash_fs.c:206-579 | any one operation answers and does what the abstract state before it decides: names, bytes, free slots and free blocks, a refused create by its cause, a write by its cost; a halted system starts again |
| FfsSession.Session | src/sapphireos/flash_fs.c:44-579 | any sequence of creates, deletes, writes, reads, collector turns and restarts on an erased chip follows the abstract state machine: every answer, every halt and every state |
| FfsSession.FillChip | src/sapphireos/ffs_page.c:524-611 | on an erased chip of any number of blocks a new file takes 3264 bytes a block less 128, and one byte more halts the system with exactly those written |
| FfsSession.NewFileCost | src/sapphireos/ffs_page.c:524-611 | a write of n bytes to a new file is paid for by the other blocks exactly when n is within that capacity, and otherwise stops when they are all full |
| ConfigSlots.ChunksReach | src/sapphireos/config.c:208-219 | the chunks cover a value exactly when its length fits the 8-bit parameter it is passed in; a 512-byte string gets none |
| ConfigSlots.ChunksNeeded | src/sapphireos/config.c:208-219 | one chunk fewer would not reach |
| ConfigSlots.CleanedIsClean | src/sapphireos/config.c:289-348 | from any EEPROM image the cleaner leaves no chunk stored twice and only registered, rightly typed chunks in range |
| ConfigSlots.CleanedAt | src/sapphireos/config.c:289-348 | which slots stay, slot by slot: an empty one, or the lowest copy of a chunk whose id is registered with the stored type and whose 8 bytes begin within the size of that type in 8 bits; all others become sixteen bytes of 0xff |
| ConfigSlots.SlotBytes | src/sapphireos/config.c:89-96 | the sixteen bytes of a slot: id with the low byte first, type, number, two bytes of 0xff, data |
| ConfigSlots.SlotFields | src/sapphireos/config.c:89-96 | the same read back |
| ConfigSlots.CleanStays | src/sapphireos/config.c:289-348 | a clean image is left alone |
| ConfigSlots.CleanedTwice | src/sapphireos/config.c:289-348 | cleaning twice is cleaning once |
| ConfigSlots.CleanedLookup | src/sapphireos/config.c:289-348 | of several copies of a chunk the lowest survives if it is good, and otherwise none does |
| ConfigSlots.GoodCopyLost | src/sapphireos/config.c:289-348 | two copies of a chunk, the lower of the wrong type: the cleaner leaves neither |
| ConfigSlots.PieceReached | src/sapphireos/config.c:448-543 | filling a free slot and erasing the old one stores that chunk, keeps every other chunk and uniqueness, and costs a slot only if the chunk was missing |
| ConfigSlots.FitsFound | src/sapphireos/config.c:274-285 | a chunk finds a free slot exactly when the slots free at the start exceed the missing chunks before it |
| ConfigSlots.CutLookup | src/sapphireos/config.c:448-543 | cut at any byte of writing one chunk and then cleaned, that chunk is the old or the new one and every other is as before |
| ConfigSlots.CutBoth | src/sapphireos/config.c:262-272 | with the new and the old copy both complete the cleaner keeps one of them |
| ConfigSlots.CutErase | src/sapphireos/config.c:234-240 | with the old copy half erased the cleaner keeps the new one |
| ConfigSlots.TornAppears | src/sapphireos/config.c:262-272 | where the half-written spelling of an id is a registered key itself, a cut write can leave a parameter that was never stored |
| ConfigSlots.CutPrefix | src/sapphireos/config.c:448-543 | cut in chunk m and cleaned, the first m or m + 1 chunks are new, the rest old, and the image is clean |
| ConfigSlots.ResumedSame | src/sapphireos/config.c:289-348 | a cleaning that was itself interrupted at any byte and run again leaves the same chunks |
| ConfigSlots.StoredReads | src/sapphireos/config.c:545-614 | a fully stored value reads back whole exactly when it has at most 255 bytes, apart from zeros of which nothing is stored; of a longer one exactly the bytes that its chunks reach come back |
| ConfigSlots.LongIsLost | src/sapphireos/config.c:208-219 | 512 erased bytes count as stored with no chunk and do not read back from any image |
| ConfigSlots.OthersRead | src/sapphireos/config.c:545-614 | every other parameter keeps its assembled chunks and its first chunk |
| ConfigSlots.OthersReadSame | src/sapphireos/config.c:545-614 | a read of any other parameter, of any length, gives the same bytes and the same status |
| ConfigSlots.PrefixReads | src/sapphireos/config.c:545-614 | with m new chunks a value reads as the new one up to byte 8m and as the old one from there |
| ConfigSlots.PartReads | src/sapphireos/config.c:448-614 | what a read gives when m chunks are new: as many bytes as the chunks reach, the new value up to byte 8m and the old chunks from there; with none new the value and status from before, with all of them the new value; a value of one chunk is one of these |
| ConfigSlots.CutEraseReads | src/sapphireos/config.c:437-446 | after a cut erasing of a parameter and a cleaning, each of its chunks is whole or gone and every other chunk is as before |
| Config.Eeprom.WriteBlock | src/hal/sim/hal_eeprom.c:52-64 | writes bytes in ascending order, as many as the supply lasts for |
| Config.Eeprom.EraseBlock | src/hal/sim/hal_eeprom.c:66-77 | erases bytes in ascending order, as many as the supply lasts for |
| Config.Eeprom.ReadBlock | src/hal/sim/hal_eeprom.c:84-96 | reads the addressed bytes |
| Config.SlotPatched | src/sapphireos/config.c:201-206 | bytes written within one slot change that slot alone |
| Config.ConfigStore.EraseSlot | src/sapphireos/config.c:234-240 | erases a slot from its first byte on, and no byte outside it |
| Config.ConfigStore.SlotsAt | src/sapphireos/config.c:201-206 | slot i is the sixteen bytes from 16 i + 16 on |
| Config.ConfigStore.WriteSlot | src/sapphireos/config.c:262-272 | writes a slot with its first byte, which completes the id, last, and no byte outside it |
| Config.ConfigStore.SeekBlock | src/sapphireos/config.c:247-260 | the lowest slot with that id and block number, or none |
| Config.ConfigStore.GetFree | src/sapphireos/config.c:274-285 | the lowest empty slot, or none |
| Config.ConfigStore.FreeBlocks | src/sapphireos/config.c:421-434 | the number of empty slots |
| Config.ConfigStore.WritePiece | src/sapphireos/config.c:496-537 | writes, checks and then erases the old copy; whenever the supply fails the image is one of the states in between |
| Config.ConfigStore.WriteParam | src/sapphireos/config.c:448-543 | stores a value chunk by chunk; done exactly when free slots suffice for the chunks that differ, otherwise a prefix is stored; cut anywhere, the image lies between two such prefixes |
| Config.ConfigStore.ReadParam | src/sapphireos/config.c:545-614 | assembles the chunks, zeros for missing ones; all zeros and -1 when the first is missing |
| Config.ConfigStore.EraseParam | src/sapphireos/config.c:437-446 | erases exactly the slots of that parameter; when the supply fails each of them is erased, untouched or erased up to some byte, and every other slot is as before |
| Config.ConfigStore.CleanBlocks | src/sapphireos/config.c:289-348 | a slot stays exactly when it is empty or the lowest copy of a registered, rightly typed chunk in range, and is erased otherwise; cut at any byte, what is left cleans to the same chunks |
| Config.SetAndGet | src/sapphireos/config.c:448-614 | set then get gives the value back, or as much of it as its chunks reach, and without free slots for all a prefix of it followed by the old chunks; every other parameter reads as before with the same status; and slot use grows by the missing chunks |
| Config.SetThroughCuts | src/sapphireos/config.c:448-543 | a set cut at any byte, followed by any number of cut cleanings and one complete one, leaves a prefix of new chunks followed by old ones and everything else as it was |
| Config.SetCutGet | src/sapphireos/config.c:448-614 | the same with a read at the end: exactly as many bytes as the chunks reach, the new value up to a chunk boundary and the old one from there, a value of one chunk the old or the new one; every other parameter reads as before with the same status |
| TimeSync.TimeServer.Begin | src/lib_chromatron/timesync.c:269-271 | the server thread starts out as master |
| TimeSync.TimeServer.Listen | src/lib_chromatron/timesync.c:273-280 | from its address on, it takes itself for the frame master |
| TimeSync.TimeServer.Receive | src/lib_chromatron/timesync.c:283-375 | what a datagram does to the node, foreign ones included, and when the frame is applied |
| TimeSync.TimeServer.SendFrameSync | src/lib_chromatron/timesync.c:194-243 | one frame goes out exactly when the node is master and in a sync group; every node of that group accepts it, and its source is the sender |
| TimeSync.FramesAccepted | src/lib_chromatron/timesync.c:194-243 | what a master sends passes every check of a receiver in its group: magic number, version, kind, group |
| TimeSync.Foreign | src/lib_chromatron/timesync.c:290-321 | a datagram that fails one of these checks, or reaches a node in no group, changes nothing |
| TimeSync.LowerCounts | src/lib_chromatron/timesync.c:326-352 | an accepted frame makes its sender the frame master exactly when the node waits, has none, or has one of a higher address |
| TimeSync.RunOk | src/lib_chromatron/timesync.c:269-350 | in every run each listening node's frame master is the lowest of its own address and all it has heard, and packets come from members of their group |
| TimeSync.HandledOk | src/lib_chromatron/timesync.c:307-350 | handling one datagram keeps that |
| TimeSync.MasterRule | src/lib_chromatron/timesync.c:307-350 | a listening node is master exactly when its frame master is itself, and exactly when it has handled no frame from a lower address |
| TimeSync.LowestIsMaster | src/lib_chromatron/timesync.c:307-350 | the lowest node of a group is always master |
| TimeSync.MasterNeverRises | src/lib_chromatron/timesync.c:307-350 | however a run goes on, the frame master of a listening node never gets a higher address |
| TimeSync.OneMasterIff | src/lib_chromatron/timesync.c:194-350 | a listening group has exactly one master exactly when every other node has handled a frame from someone below it |
| TimeSync.OneMasterForEver | src/lib_chromatron/timesync.c:194-350 | once every other node has handled one frame from the lowest, that node is the only master and only sender for ever, under any loss, delay, duplication and reordering |
| TimeSync.Settles | src/lib_chromatron/timesync.c:194-375 | whatever has happened before, once a group listens one frame of its lowest node and one receipt of it at each other node leave that node the only master, for ever |
| TimeSync.NoGroup | src/lib_chromatron/timesync.c:310-313 | a node in no group hears nobody and stays master |
| Faders.StepReaches | src/lib_chromatron/gfx_lib.c:1321-1369 | the step points to the target and covers the distance in twice the fade's ticks; the 16-bit clamps never bite |
| Faders.ShorterIs | src/lib_chromatron/gfx_lib.c:1335-1358 | the shorter way round a circle of 65536 |
| Faders.FadeIs | src/lib_chromatron/gfx_lib.c:1317-1332 | a fade of f milliseconds is cut into f / 20 steps, and into two when that is fewer |
| Faders.LevelStep | src/lib_chromatron/gfx_lib.c:1428-1446 | a step of saturation or value goes towards the target and never past it |
| Faders.LevelReaches | src/lib_chromatron/gfx_lib.c:1391-1502 | saturation and value sit at the target with step zero after 2n ticks, n the larger of 2 and fade/20, and stay |
| Faders.FadeDone | src/lib_chromatron/gfx_lib.c:1317-1504 | a fade of saturation, value or dimmer is over after fade / 10 ticks, or four |
| Faders.FadeTakes | src/lib_chromatron/gfx_lib.c:1317-1504 | such a fade takes at least fade / 20 ticks if its way is that long, and after k of them it has gone at most k of that many parts of the way |
| Faders.LevelMonotone | src/lib_chromatron/gfx_lib.c:1391-1502 | on the way they move monotonically |
| Faders.DimmerReaches | src/lib_chromatron/gfx_lib.c:136-170 | a dimmer fade arrives within the same bound |
| Faders.HueStep | src/lib_chromatron/gfx_lib.c:1371-1389 | a step of the hue goes on along the shorter arc, lands, or, when the way crosses the wrap, ends less than a step past the target |
| Faders.HueReaches | src/lib_chromatron/gfx_lib.c:1317-1389 | the hue sits at the target after 2n + 1 ticks, and stays |
| Faders.HuePath | src/lib_chromatron/gfx_lib.c:1317-1389 | every state of a hue fade lies on the shorter arc, nearer with each tick, except for at most one past the target, just before it lands |
| Faders.OvershootIff | src/lib_chromatron/gfx_lib.c:1371-1389 | a hue overshoots exactly when its target lies less far behind the wrap than what remains of the way after all whole steps |
| Faders.HueOvershoots | src/lib_chromatron/gfx_lib.c:1371-1389 | for one, from 65529 to 0 at the fastest fade the third tick shows 2 |
| Faders.NoWrap | src/lib_chromatron/gfx_lib.c:1330-1345 | when the shorter way does not cross the wrap a hue fades like a saturation, so it does not overshoot |
| Faders.FadeOne | src/lib_chromatron/gfx_lib.c:1317-1389 | one tick of one quantity, recomputing the step when a new fade starts |
| Faders.Pixels.TickPixel | src/lib_chromatron/gfx_lib.c:1314-1502 | one pixel ticks in all three quantities and no other pixel changes |
| Faders.Pixels.ProcessFaders | src/lib_chromatron/gfx_lib.c:1298-1504 | every pixel in use ticks once, those beyond the count do not, and a running dimmer fade moves |
| Faders.Pixels.ProcessFor | src/lib_chromatron/gfx_lib.c:1298-1504 | k ticks in a row |
| Faders.Pixels.SetHue | src/lib_chromatron/gfx_lib.c:456-468 | aims one pixel and restarts its fade; out of range nothing |
| Faders.Pixels.SetSat | src/lib_chromatron/gfx_lib.c:470-482 | the same for saturation |
| Faders.Pixels.SetVal | src/lib_chromatron/gfx_lib.c:484-496 | the same for value |
| Faders.Pixels.SetHsFade | src/lib_chromatron/gfx_lib.c:498-511 | a new fade time restarts both fades it governs |
| Faders.Pixels.SetVFade | src/lib_chromatron/gfx_lib.c:513-524 | a new fade time restarts the value fade |
| Faders.Pixels.UpdateMasterFader | src/lib_chromatron/gfx_lib.c:136-170 | aims the dimmer at the product of its two settings |
| Faders.DimmerTargetIs | src/lib_chromatron/gfx_lib.c:136-170 | the target is the product of master and sub dimmer in units of 65536, rounded down, and zero if one of them is |
| Faders.FadePixel | src/lib_chromatron/gfx_lib.c:456-1504 | set a pixel, wait 2n + 1 ticks, and it shows exactly what it was set to |
| Faders.FadeDimmer | src/lib_chromatron/gfx_lib.c:136-1504 | aim the dimmer, wait 2n ticks, and it sits at the product of its two settings |
| DateTime.DaysBeforeIs | src/sapphireos/datetime.c:323-345 | the leap rule gives the closed Gregorian day count of section 3.2.1 of ISO 8601:2004 |
| DateTime.MonthsMakeYear | src/sapphireos/datetime.c:37-50 | the month lengths add up to the year |
| DateTime.MonthStarts | src/sapphireos/datetime.c:38-51 | the day of the year on which each month begins: 0, 31, 59, and so on, one more after February of a leap year |
| DateTime.SecondsAre | src/sapphireos/datetime.c:201-266 | a count of seconds is its days, hours, minutes and seconds |
| DateTime.UnixEpoch | src/sapphireos/datetime.c:201-266 | 1970 begins 2208988800 seconds after 1900 |
| DateTime.SecondsUnique | src/sapphireos/datetime.c:201-267 | no second since 1900 has two valid dates |
| DateTime.DateTime.IsLeapYear | src/sapphireos/datetime.c:323-345 | exactly the Gregorian leap years |
| DateTime.DateTime.SecondsToDatetime | src/sapphireos/datetime.c:201-267 | for every 32-bit number of seconds since 1900 a valid date between 1900 and 2036 that counts to that number; the 16-bit day count never overflows |
| DateTime.DateTime.FindYear | src/sapphireos/datetime.c:203-231 | the year that a day number falls in, and the day within it |
| DateTime.DateTime.FindMonth | src/sapphireos/datetime.c:233-256 | the month and day that a day of the year falls in |
| DateTime.DateTime.IncrementSeconds | src/sapphireos/datetime.c:269-321 | carries into minutes, hours, days, months and years as the calendar has it |
| DateTime.IncrementedIsNext | src/sapphireos/datetime.c:269-321 | counting on by a second keeps a date valid and is one second more |
| DateTime.ConvertNext | src/sapphireos/datetime.c:201-321 | converting s + 1 gives the same date as converting s and counting on |
| DateTime.YearBack | src/sapphireos/datetime.c:99-110 | a printed and parsed year comes back exactly when it has four digits |
| DateTime.TextBack | src/sapphireos/datetime.c:68-165 | printing and parsing give the same fields back exactly when the year has four digits, whatever was in the buffer |
| DateTime.TextLayout | src/sapphireos/datetime.c:99-163 | the text of a date: separators at 4, 7, 10, 13 and 16, a zero at its end, and digits between them that spell month, day, hours, minutes, seconds and a year of four digits |
| DateTime.DigitsSpell | src/sapphireos/datetime.c:99-105 | a number is printed as decimal digits that spell it |
| DateTime.ValueIs | src/sapphireos/datetime.c:60-93 | a character counts as its distance from the digit zero, and a pair as ten times the first and the second, all in 8 bits |
| DateTime.PrintTwo | src/sapphireos/datetime.c:112-121 | a field of one digit is padded, one of two is not |
| DateTime.ToIso8601 | src/sapphireos/datetime.c:99-165 | the extended format of section 4.3.2 of ISO 8601:2004 without a zone, and nothing past the twentieth byte |
| DateTime.ParseIso8601 | src/sapphireos/datetime.c:68-95 | reads the fixed positions, or gives the epoch for a short text |
| DateTime.SecondsThroughText | src/sapphireos/datetime.c:68-267 | every 32-bit second survives conversion, printing and parsing |
| VmCore.Run | src/lib_chromatron/vm_core.c:316-327 | a run at any depth counts every dispatch, never beyond 32769, and reports the budget exactly when it is used up, whatever pixel, database and random instructions do at each count |
| VmCore.TurnsOn | src/lib_chromatron/vm_core.c:915-1061 | an array loop on more than 65535 elements is not left after any number of turns, because its counter wraps around below the size |
| VmCore.TurnsReach | src/lib_chromatron/vm_core.c:915-1061 | after n turns, up to the size, the first n elements are mapped, each once, and nothing else has changed |
| VmCore.LoopedIff | src/lib_chromatron/vm_core.c:915-1061 | an array loop ends exactly when the size fits its counter, and then with every element mapped |
| VmCore.RunIsDispatches | src/lib_chromatron/vm_core.c:639-650 | the recursive interpreter agrees with a machine that keeps its calls on an explicit stack, dispatch by dispatch; a failure ends all callers and anything else, a halt included, returns to the next |
| VmCore.AlwaysEnds | src/lib_chromatron/vm_core.c:316-327 | any bytecode is done within 32768 instructions in all, calls included, and comes to an end exactly when none of them is an array instruction on more than 65535 elements |
| VmCore.FailureIsFinal | src/lib_chromatron/vm_core.c:639-650 | a negative status at any depth of calls is the status of the outermost run |
| VmCore.HangsIff | src/lib_chromatron/vm_core.c:915-1061 | a run ends in a loop that no number of turns leads out of exactly when it reaches an array instruction on more than 65535 elements |
| VmOps.Moves | src/lib_chromatron/vm_core.c:335-368 | mov, clr and not: one cell gets the value, no other changes, and on behind the operands |
| VmOps.Compares | src/lib_chromatron/vm_core.c:370-455 | each comparison, and, or: one cell gets 1 if it holds and 0 if not |
| VmOps.Arithmetic | src/lib_chromatron/vm_core.c:457-487 | add, sub and mul: one cell keeps the low 32 bits of the result |
| VmOps.Divides | src/lib_chromatron/vm_core.c:489-523 | div and mod round towards zero; by zero both give zero |
| VmOps.Jumps | src/lib_chromatron/vm_core.c:525-582 | jmp, the jumps on zero and on not zero, and the one that counts down: where to, under which condition, and what changes |
| VmOps.JumpsOnTwo | src/lib_chromatron/vm_core.c:584-620 | jump if not less; count up and jump if then less |
| VmOps.Leaves | src/lib_chromatron/vm_core.c:632-651 | ret puts its cell into cell 0 and ends with 0; call goes to its target and back behind itself; assert ends with -99 exactly on zero; halt ends with 1 |
| VmOps.Calls | src/lib_chromatron/vm_core.c:639-651 | a callee that ends with a status of zero or more, a halt included, goes on behind the call; any other ends its caller alike |
| VmOps.Indexes | src/lib_chromatron/vm_core.c:653-679 | array store and load in one dimension: which cell, with the index reduced by the length as % does it |
| VmOps.IndexesTwo | src/lib_chromatron/vm_core.c:681-712 | the same in two dimensions |
| VmOps.MapsArray | src/lib_chromatron/vm_core.c:915-1062 | an array instruction changes each of the cells of its array by the operand, and no other cell |
| VmOps.Sets | src/lib_chromatron/vm_core.c:622-630 | print and the instructions that set pixels or the database change no cell and go on behind their operands |
| VmOps.Asks | src/lib_chromatron/vm_core.c:1064-1110 | random numbers, library calls and the other questions give their answer to one cell and change no other |
| VmOps.Traps | src/lib_chromatron/vm_core.c:1200-1202 | every opcode that is not an instruction ends with -100 |
| Division.DivisionIs | src/lib_chromatron/vm_core.c:489-523 | C division rounds towards zero: the remainder is the only number nearer to zero than the divisor, of the sign of the dividend, that leaves a multiple |
| VmCore.Hangs | src/lib_chromatron/vm_core.c:915-936 | a program of one array instruction hangs on 65536 elements and goes on to the next instruction on 65535 |
| VmCore.Vm.RunStream | src/lib_chromatron/vm_core.c:41-1202 | the dispatch loop with its recursive calls computes that run, in the shared counter and data |
| VmCore.Vm.RunArray | src/lib_chromatron/vm_core.c:915-1061 | the loop over the elements, when it ends, gives the data that any number of turns leading out of it gives |
| VmCore.Vm.RunInit | src/lib_chromatron/vm_core.c:1215-1236 | a fresh budget for the init function, and the record of the longest run |
| VmCore.Vm.RunLoop | src/lib_chromatron/vm_core.c:1239-1259 | a fresh budget for every frame, with effects of its own, and the record of the longest run |
| VmCore.Vm.Eval | src/lib_chromatron/vm_core.c:1451-1464 | runs a stream from its start and reads its return value |
| VmOps.EvalTwoArmed | src/lib_chromatron/vm_core.c:1451-1464 | on a program with a branch, evaluation returns the cell of the arm that its condition chooses |
| LinkedList.InsertKeeps | src/sapphireos/list.c:162-189 | a node linked in behind another keeps the list linked both ways |
| LinkedList.RemoveKeeps | src/sapphireos/list.c:247-281 | a node unlinked keeps the list linked both ways |
| LinkedList.OtherChain | src/sapphireos/list.c:162-281 | lists none of whose nodes is touched stay linked |
| LinkedList.MoveTail | src/sapphireos/list.c:213-299 | two lists share one pool: taking the last node of one to the head of the other leaves both linked, with exactly those nodes |
| LinkedList.List.InsertAfter | src/sapphireos/list.c:162-189 | the node comes right behind the given one; other objects keep their links |
| LinkedList.List.InsertTail | src/sapphireos/list.c:191-211 | the node comes last |
| LinkedList.List.InsertHead | src/sapphireos/list.c:213-245 | the node comes first |
| LinkedList.List.Remove | src/sapphireos/list.c:247-281 | exactly that node is gone |
| LinkedList.List.RemoveTail | src/sapphireos/list.c:283-299 | the last node is gone and returned, or none |
| LinkedList.List.Index | src/sapphireos/list.c:321-340 | the node at a position, or none past the end |
| LinkedList.List.Count | src/sapphireos/list.c:92-112 | the number of nodes modulo 256 |
| LinkedList.List.Flatten | src/sapphireos/list.c:383-425 | exactly that window of the concatenated node data, clipped at the end |
| LinkedList.FlattenTwice | src/sapphireos/list.c:383-425 | consecutive windows reassemble one window |
| LinkedList.FlattenAll | src/sapphireos/list.c:383-425 | reading window after window, up to the first that is not full, gives the whole text |

## Left out

- Flash faults: reads and programs do what they are told, so retry loops are modelled as their first turn, and error
  branches that only a fault can reach are shown to be dead. Error and hit counters are not modelled.
- Mounting flash with duplicate logical blocks or missing ones, as a crash can leave it: the code compares a block's
  sequence number with itself and overwrites links while walking them, so no recovery is claimed. Mounting is proved
  for whatever completed operations leave.
- ffs_block_i8_verify_free_space on free blocks that are not erased: its walk stops at the first one.
- Sizing the device from the chip's capacity: the number of blocks, at most 254, is a parameter. Addresses are
  relative to the start of the file system partition, and its write protection is not modelled.
- The file ids that stand for firmware images, the flag for a missing chip, and reading a file's name.
- ffs_block_v_remove_from_list, which no other code calls.
- FfsPage.PageDriver.PageWrite: for positions up to the file size only, which is all that flash_fs.c asks for.
- FfsMount.Mount: for flash as completed operations leave it, and so are FfsMount.CollectFiles, FfsMount.PageInit
  and what they are made of.
- FfsMount.BlockInit: for flash whose free blocks are erased.
- FfsMount.VerifyFreeSpace: for free blocks that are erased.
- FfsMount.MapFile: for files without two blocks of one number.
- FfsMount.RelinkFile: for files without a missing block.
- FfsMount.ScanFileSize: for files whose last block is not empty, or that have none.
- FfsMount.FileScan: for files without a missing or short page.
- FfsBlock.BlockDriver.AddToList: the C code passes the address of a list head; here the list is named by its
  number, and the heads of file lists are kept in the page driver's file table.
- FfsSession.Session: a file's name is not looked up; the collector runs its turn only where the counter file has
  its size, and a session names that file by its id.
- FfsGc.GarbageCollector.Drain: the file layer's handles and lookup by name are not modelled; the counter file is a
  file id, and whether it can be opened is decided by the caller. No other writer runs in between.
- Crc.Crc16: the checksum of the simulator's crc.c, bit by bit instead of by table.
- Config.ConfigStore.WriteParam: expects no chunk to be stored twice, which boot cleaning establishes; parameters
  kept in RAM only, warnings and the key-value system are not modelled, the last is a table of types and sizes.
  Array parameters, for which the length read differs from the length written, are left out.
- Config.ConfigStore.ReadParam: gives the bytes it writes to the caller's buffer; of a value longer than its chunks
  reach, the rest of the buffer, which the code leaves as it was, is left out.
- Config.SetThroughCuts: assumes that the types of stored parameters have not changed and that no registered key is
  spelled like a half-written id, which `TornSafe` spells out. The EEPROM is cut between bytes, in the order in
  which the simulator's driver writes them.
- TimeSync.RunOk: addresses and sync groups do not change and nodes do not restart; a packet that passes a node's
  filters was sent by a node. What frames do to the graphics, and the unused clock code, are left out.
- Faders.Pixels.ProcessFaders: the conversion to RGB, arrays of pixels and the dimmer's lookup table are left out.
- DateTime.ToIso8601: years from 32768 on, which print with a sign.
- DateTime.YearBack: the same.
- DateTime.TextBack: the same.
- DateTime.DateTime.IncrementSeconds: for valid dates before the year 65535, whose end the 16-bit year does not
  survive.
- VmCore.AlwaysEnds: does not bound the host's stack. Each bytecode call takes a frame of it, and a program can nest
  32768 of them.
- VmCore.Vm.RunArray: a loop that does not end cannot be run by a method that ends; it answers false instead,
  exactly when no number of turns leads out of the loop.
- VmCore.Run: pixel, database, random and library instructions give an arbitrary number to the cell they name, another
  one at each count of cycles and in each run; what they do to pixels, database and seed is not modelled, nor that a
  library call with more than eight parameters overruns the array they are copied to. Memory is total and a division
  by zero in an unchecked instruction gives zero. Loading a program and its header checks are left out.
- LinkedList.List.Flatten: for lists of less than 65536 bytes, as its 16-bit positions require.
- LinkedList.List: each memory object is split into its links and its data; allocating, freeing, list_u16_size and
  list_v_destroy are left out. The position passed along with a node only serves the proofs.
- Protothreads, other than the atomic steps named above; the network stack, drivers, key-value persistence and all
  remaining parts of the system.
