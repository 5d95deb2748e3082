# CandleKernel: verified model

A model, in Dafny 4.11, of the parts of the 32-bit CandleKernel that keep state or decode data, with
proofs about every input, every run and every reachable state:

- the physical frame allocator of `src/memory.c` (`FramePool.dfy`, `Frames.dfy`);
- the kernel heap of `src/memory.c` (`HeapSpec.dfy`, `KernelHeap.dfy`) and the one heap `src/kernel.c`
  makes (`Boot.dfy`);
- the IDE/ATA PIO driver of `drivers/ide/ide.c` over an abstract channel (`Ata.dfy`, `Ide.dfy`);
- the ext2 reader of `drivers/ext2/ext2.c` (`Ext2Dir.dfy`, `Ext2Path.dfy`, `Ext2Inode.dfy`);
- the text console: `drivers/vga/vga.c`, `drivers/keyboard/keyboard.c`, `src/stdlib.c`
  (`Screen.dfy`, `Vga.dfy`, `Format.dfy`, `Printf.dfy`, `Keyboard.dfy`, `CStrings.dfy`, `Numbers.dfy`).

`CTypes.dfy` holds the fixed-width integers; 32-bit wrap-around and the signed casts are written out
wherever the code depends on them. Code that updates memory in place is a class or a method over an
array, and each such method is tied to a specification function on values; the laws are lemmas about
those functions. Check everything with `dafny verify dfyconfig.toml`.

## How the model reads the code

- A 32-bit bitmap word is the sequence of its 32 bits, lowest first. Setting or clearing a one-bit mask
  updates one position and the test against `0xffffffff` asks for a clear bit. In the IDE driver and the
  ext2 reader masks and shifts are quotients and remainders, and `|` of disjoint bit fields is a sum.
- The frame search at `src/memory.c:58-71` is modelled as it stands: the `if` at line 62 guards nothing
  and the count is never reset. So a run it returns starts at a free frame and may cover used ones.
  `FramePool.SearchOverlaps` gives a run that ends in one, and `FramePool.ManySafeIff` the exact condition on
  the bitmap for a request to keep the allocator safe, which `FramePool.RunsAreSafe` carries over whole
  runs. Runs without multi-frame requests need nothing but their callers' duties
  (`FramePool.SingleRunsAreSafe`), and `FramePool.BumpSearch` says exactly when the front of one free
  interval is picked.
- Regions cover size / 4096 + 1 frames, because the loops run while the count is >= 0
  (`src/memory.c:198`, `src/memory.c:213`).
- `kstd_mem_init` takes START - END as the total (`src/memory.c:321`). `HeapSpec.InitStarvesIff` says
  exactly which bounds leave a heap that refuses every brk for ever: all but those whose difference,
  modulo 2^32, is at least 2 and below 2^31. The kernel's own call serves: the frame allocator has not
  been set up then, so START is NULL, END is 0xFFFFF000 and the total 4096 (`Boot.KernelHeapServes`);
  `Boot.HeapStarvesIff` says when the same two lines would starve the heap on an allocator that has. The
  other heap results take a total below 2^31 that does not wrap the address space.
- A block header is 16 bytes: `packed` stands on the outer struct alone (`lib/memory.h:19-28`), so
  `meta` keeps its padding. brk returns the upper end of what it reserves, and malloc's callers count
  from there; `HeapSpec.BlocksMeetIff` says exactly when two blocks, a block and the next header, or a
  block and its own header do not meet.
- A malloc whose header reservation is refused writes through a null pointer; the model stops there with
  the outcome `Faulted`. A refused data reservation leaves a block whose address is NULL, as in the code.
  `HeapSpec.MallocFailsIff` says exactly when each happens, `HeapSpec.RunServedIff` that the invariant
  survives a run exactly when neither does, and `Boot.KernelHeapFails` gives both on the kernel's heap.
- The driver advances its `uint32 *` buffer by 512 elements a sector (`drivers/ide/ide.c:445`,
  `drivers/ide/ide.c:455`), so sector i sits at byte 2048 * i. Buffers are arrays of 16-bit words, the
  unit `insw` and `outsw` move, with a stride of 1024. A consequence for the ext2 reader:
  `Ext2Inode.InodeInBuffer` shows that only inodes whose index is 0 or 1 modulo 4 are in the buffer
  where `read_inode` looks, and `Ext2Inode.DirectoryReadIff` that a directory is read right, whatever the
  buffer held before, exactly when its records end before word 128 of the block.
- The walk of a directory need not end. `Ext2Dir.WalkOutcome` says exactly when it ends, when it goes on
  for ever and when it leaves the buffer's words; `Ext2Dir.LongRecordNeverEnds` gives a record of 256
  bytes, which the format allows and whose length `drivers/ext2/ext2.c:125` reads as 0. A search is a
  method here, so it takes a directory whose walk ends.
- `index * INODE_SIZE` and the sector number are 32-bit (`drivers/ext2/ext2.c:91`,
  `drivers/ext2/ext2.c:94`). Block sizes are 1024 shifted by the superblock's exponent, without a bound
  on it: shifts that overflow an `int` have no meaning in C.
- The drive follows ATA/ATAPI-6 ("48-bit Address feature set" and the READ/WRITE SECTOR(S) and
  READ/WRITE SECTOR(S) EXT command descriptions): registers two deep, CHS with 16 heads and 63 sectors,
  a transfer that moves to the next sector number, and an error status for a sector off the disk or
  marked faulty. It is never busy. A port is named by its block and offset.
- The control blocks are configured from ports 0x3F6 and 0x376 on (`drivers/ide/ide.c:519`) and the
  driver adds 2 to reach the control register (`drivers/ide/ide.c:54`), which makes ports 0x3F8 and
  0x378. So none of its control writes reaches a channel, and no result depends on them.
- The device number test at `drivers/ide/ide.c:477` lets one number past the table through. The model's
  table has one record more for it, the memory behind the table; like every record, it is taken to name
  one of the four units when it says that it is present. The local `err` of an ATAPI request is
  uninitialised in the code and is a parameter here, like the device's error register.
- Key codes, what the command dispatch prints and whether it clears the screen, directory lookups and
  drive contents are parameters.
- Methods named `Perform`, `PerformAll`, `WriteThenRead`, `FindStored`, `TypeKey` and `TypeKeys` have no
  counterpart in the code: they run its operations one after the other to state what a run does.

## Model

| member | source | states |
|---|---|---|
| FramePool.SearchExact | src/memory.c:48-77 | the search returns r exactly when r is a clear bit at which the running sum of (32 - b mod 32) over clear bits first reaches the size, and -1 exactly when the total stays below it |
| FramePool.SearchOneIsLeast | src/memory.c:153-174 | for size 1 that is the least clear bit, -1 exactly when there is none |
| FramePool.OpeningKeepsIff | src/memory.c:193-206 | adding frames to the free set and lowering the counter keeps bitmap and counter in agreement exactly when the frames are managed and none was free already |
| FramePool.ClosingKeepsIff | src/memory.c:208-221 | marking frames used and raising the counter keeps the agreement exactly when all of them were free |
| FramePool.OpenExact | src/memory.c:193-206 | opening managed frames that are not free frees size / 4096 + 1 frames from base / 4096 on, takes as many off the counter, and keeps the pool consistent |
| FramePool.CloseExact | src/memory.c:208-221 | closing free frames takes size / 4096 + 1 frames from base / 4096 on out of the free ones, adds as many to the counter, and keeps the pool consistent |
| FramePool.ClosedStaysClosed | src/memory.c:193-309 | a frame that is neither free nor held is handed out by no safe run until a call opens it |
| FramePool.CloseThenRun | src/memory.c:208-278 | so no frame of a region that was closed comes back before it is opened again |
| FramePool.ManyStaysInBitmap | src/memory.c:254-271 | in a consistent pool the run picked starts at a free frame and its bit writes stay inside the bitmap |
| FramePool.PickOneIsLeast | src/memory.c:223-239 | in a consistent pool the single-frame request fails exactly when nothing is free and otherwise picks the least free frame |
| FramePool.OneIsComplete | src/memory.c:223-291 | NULL is returned exactly when no frame is free, so the -1 fallback is dead; otherwise the frame is recovered from the address and freeing it restores the pool exactly |
| FramePool.AddressRoundTrip | src/memory.c:243-286 | the address of a managed frame does not wrap, is not NULL, and gives the frame number back |
| FramePool.GrantThenRelease | src/memory.c:268-308 | freeing the frames just granted restores bitmap and counter, when they had been free |
| FramePool.ManySafeIff | src/memory.c:250-278 | a multi-frame request keeps a safe pool safe exactly when nothing is asked for, too little is free, or the frames from wherever the running count first reaches the size on are all free |
| FramePool.StepSafeIff | src/memory.c:181-309 | every other call that meets its caller's duties keeps the pool safe outright; what a safe call hands out was free and meets no held frame |
| FramePool.SingleAlwaysGranted | src/memory.c:223-248 | the single-frame request always hands out a free frame nobody holds, and keeps the pool safe |
| FramePool.RunsAreSafe | src/memory.c:181-309 | a run whose callers do their duties stays safe at every step exactly when each multi-frame request finds its front free; then no frame is handed out while held |
| FramePool.SingleRunsAreSafe | src/memory.c:193-248 | runs of opening, closing, single-frame requests and freeing are safe from the callers' duties alone |
| FramePool.FreshIsSafe | src/memory.c:181-191 | pre_init leaves a safe pool |
| FramePool.FreshLayout | src/memory.c:181-191 | as many frames as fit the memory, right behind a bitmap of one word each, all used |
| FramePool.LiveFramesDisjoint | src/memory.c:181-309 | in a safe pool two held frames are disjoint 4096-byte ranges inside the managed memory, and bits past the frames are set |
| FramePool.SearchOverlaps | src/memory.c:58-71 | a run from the start that meets every duty and after which a two-frame request is handed a frame that is held |
| FramePool.BumpSearch | src/memory.c:48-77 | from one free interval the search returns its first frame exactly when the request fits the rest of that frame's word |
| FramePool.OpenedRegionIsBump | src/memory.c:193-206 | opening one region of an unopened pool leaves one free interval |
| FramePool.BumpStep | src/memory.c:223-309 | a request that fits the word is refused and changes nothing, or takes exactly the front of the interval at its address, and freeing it restores the pool |
| FramePool.BumpRunsRefine | src/memory.c:223-278 | a whole run of such requests hands out what a bump pointer over two numbers hands out, and the free set stays one interval |
| FramePool.BumpIsConsecutive | src/memory.c:223-278 | the runs a bump pointer hands out never overlap and come in increasing order |
| Frames.SetBit | src/memory.c:17-25 | writing one bit of a bitmap word adds or removes exactly that frame |
| Frames.FrameAllocator.constructor | src/memory.c:181-191 | pre_init marks every frame used and places the frames behind the bitmap |
| Frames.FrameAllocator.FirstFree | src/memory.c:153-174 | the nested scan finds the first clear bit |
| Frames.FrameAllocator.FindFirstRun | src/memory.c:32-78 | the triple loop computes the search described by FramePool.SearchExact |
| Frames.FrameAllocator.InitRegion | src/memory.c:193-206 | opens size / 4096 + 1 frames and lowers the counter by as many, modulo 2^32 |
| Frames.FrameAllocator.DeinitRegion | src/memory.c:208-221 | closes size / 4096 + 1 frames and raises the counter by as many, modulo 2^32 |
| Frames.FrameAllocator.AllocBlock | src/memory.c:223-248 | takes the first free frame and returns its address, or NULL with nothing changed |
| Frames.FrameAllocator.AllocBlocks | src/memory.c:250-278 | takes the run from the searched start, or returns NULL with nothing changed |
| Frames.FrameAllocator.FreeBlock | src/memory.c:280-291 | frees the frame of an address |
| Frames.FrameAllocator.FreeBlocks | src/memory.c:293-309 | frees the run at an address |
| Frames.Perform | src/memory.c:181-309 | in a safe pool each call stays inside the bitmap and does what the state machine does |
| Frames.PerformAll | src/memory.c:181-309 | whole runs on the bitmap itself, of calls that meet their duties with multi-frame requests that find their fronts free, end in the state machine's safe state |
| HeapSpec.BrkExact | src/memory.c:327-350 | brk refuses exactly when the request leaves no spare byte, otherwise reserves size + 4 bytes and returns their upper end |
| HeapSpec.BrkRunBounded | src/memory.c:327-350 | over every run of brk the use exceeds the total by at most 3 |
| HeapSpec.BrkExhausted | src/memory.c:338-343 | once the total is reached every later brk refuses |
| HeapSpec.ReservedDisjoint | src/memory.c:345-347 | over every run of brk the reserved chunks are disjoint, in call order, inside the pool |
| HeapSpec.TopEndsOverlapIff | src/memory.c:345-347 | of any two pointers of a run the bytes counted from the first stay below the second exactly when its request is at most what all later chunks up to the second take up |
| HeapSpec.TopEndsOverlap | src/memory.c:345-347 | requests of 100 and 8 bytes: the first caller's bytes reach past the second's pointer |
| HeapSpec.InitStarvesIff | src/memory.c:311-343 | every later brk of every run is refused exactly when START - END, modulo 2^32, is below 2 or at least 2^31, as for ends up to 2^31 above the start |
| Boot.KernelHeapServes | src/kernel.c:47-50 | the kernel's call makes a heap of 4096 bytes at address 0 from which brk serves exactly the positive requests below 4096 |
| Boot.HeapStarvesIff | src/kernel.c:47-50 | on any consistent frame allocator the same lines starve the heap exactly when a next free frame is left and its number is at most 2^19 |
| HeapSpec.FirstFitIsFirst | src/memory.c:362-380 | the block reused is free, large enough, and no earlier one is |
| HeapSpec.AppendExact | src/memory.c:382-435 | a growing malloc adds one block above all others and uses header and data once, the data twice behind the head |
| HeapSpec.FreeFlipsExactly | src/memory.c:456-471 | free of a block's address marks exactly that block |
| HeapSpec.StepRefines | src/memory.c:403-471 | each call answers as a map from address to size and flag allows (least fitting free address, else one above all), changes the map accordingly, and keeps order and accounting |
| HeapSpec.RunRefines | src/memory.c:403-471 | over every run in which no brk refuses the list refines the map, addresses increase along it, and the bytes in use are what the blocks account for |
| HeapSpec.EmptyHeapInv | src/memory.c:311-325 | the empty heap satisfies the invariant |
| HeapSpec.MallocFailsIff | src/memory.c:382-435 | a malloc that reuses no block writes through a null pointer exactly when the pool has no room for a header, answers NULL exactly when it has room for that but not for all the data, and is served otherwise |
| HeapSpec.StepServedIff | src/memory.c:403-471 | a call returns and keeps the invariant exactly when no brk of it refuses |
| HeapSpec.RunServedIff | src/memory.c:403-471 | every call of a run returns and the invariant holds throughout exactly when no brk of the run refuses |
| Boot.KernelHeapFails | src/memory.c:403-435 | on the kernel's heap malloc(4076) leaves a block at NULL, and after malloc(4071) the next request writes through a null pointer |
| HeapSpec.BlocksStay | src/memory.c:403-471 | over every run sizes and addresses never change and blocks are only added at the end |
| HeapSpec.BlocksMeetIff | src/memory.c:345-435 | over every served run: a block's bytes stay below a later block exactly when it is no larger than what the blocks after it account for, below the next header exactly when it has at most 20 bytes, and its own header ends below it exactly when the data chunks between hold a header |
| HeapSpec.BlocksMeet | src/memory.c:345-435 | after malloc(100) and malloc(8) the first block's bytes meet the second block |
| HeapSpec.HeaderReserved | src/memory.c:391-412 | a new header lies on top of what the blocks before it account for |
| KernelHeap.Memory.Init | src/memory.c:311-325 | the previous bounds decide, and the total is START - END modulo 2^32 |
| KernelHeap.Memory.Sbrk | src/memory.c:327-350 | the counter update and returned address of brk |
| KernelHeap.Memory.Worst | src/memory.c:362-380 | the list walk returns the first fitting block or null |
| KernelHeap.Memory.NewBlock | src/memory.c:382-401 | one block linked behind the last, header and data reserved, or null when the header was refused |
| KernelHeap.Memory.Malloc | src/memory.c:403-444 | the linked list and counter after malloc, in every case, and the address returned |
| KernelHeap.Memory.Free | src/memory.c:456-471 | the linked list after free, also for an address no block has |
| Ide.Driver.WriteRegister | drivers/ide/ide.c:43-61 | registers 0 to 7 reach their port, 8 to 11 the command block once more; everything else, the control writes around them included, leaves the channels as they are; the self-call terminates |
| Ide.PollExact | drivers/ide/ide.c:129-158 | polling reports nothing exactly when the device can move the next block, a device fault exactly when the sector to be read has that alone, a missing data request exactly when nothing is in progress, and an error otherwise |
| Ide.Driver.WriteParameters | drivers/ide/ide.c:394-410 | what both halves of every two-deep register hold after the parameter writes |
| Ide.SplitDecodes | drivers/ide/ide.c:351-398 | what the driver writes decodes to the unit and the sector number in every mode, with head below 16 and sector 1 to 63 in CHS mode |
| Ide.ChsRoundTrip | drivers/ide/ide.c:376-384 | cylinder, head and sector are in range and name the sector number modulo the CHS capacity |
| Ide.AddressingExact | drivers/ide/ide.c:352-398 | with the registers as written, the device addresses the requested sector exactly when it is not a CHS request past cylinder 65535 |
| Ide.ModeExact | drivers/ide/ide.c:352-375 | LBA48 exactly for sectors from 2^28 on, CHS exactly below that on a drive without the LBA feature bit, and so which sector is reached and how many are expected |
| Ide.SectorFor | drivers/ide/ide.c:352-385 | the sector reached is the one asked for exactly when it is at least 2^28, or the drive has bit 9 of its features, or it is below the CHS capacity |
| Ide.Driver.Program | drivers/ide/ide.c:349-410 | whatever the registers held, the device decodes that sector, the count and the unit, and the LBA bit is set exactly for a drive with LBA or a sector from 2^28 on |
| Ide.Driver.Issue | drivers/ide/ide.c:412-425 | the command sent starts a transfer of that direction, unit, sector and count, and nothing has moved |
| Ide.Driver.PioRead | drivers/ide/ide.c:433-447 | the sectors before the first undeliverable one are in the buffer at stride 2048 bytes, nothing else in it changed, and that sector's error is returned |
| Ide.Driver.PioWrite | drivers/ide/ide.c:447-456 | exactly the addressed sectors are replaced, by the buffer's sectors at stride 2048 bytes |
| Ide.Driver.Access | drivers/ide/ide.c:339-463 | both directions at that sector of the addressed device; every other device keeps its contents; a write leaves no transfer pending and a read the sectors it did not get |
| Ide.Driver.ReadSectors | drivers/ide/ide.c:475-495 | the rejections with their codes and nothing changed, and otherwise the read and its printed error code |
| Ide.Driver.WriteSectors | drivers/ide/ide.c:498-516 | the rejections with their codes and nothing changed, and otherwise the write, after which no transfer is pending |
| Ide.CheckExact | drivers/ide/ide.c:477-487 | -1 exactly for a device that is not there, -2 exactly for a disk range whose end, as a 32-bit sum, is past the size, and no other rejection |
| Ide.CheckWraps | drivers/ide/ide.c:482 | on every disk the last 32-bit sector number passes the check |
| Ide.PrintExact | drivers/ide/ide.c:160-215 | for an error the highest bit of the error register gives the code, out of 7, 3, 20, 3, 21, 3, 22, 13; the other errors give 19, 23 and 8 or themselves |
| Ide.ReadReportsExactly | drivers/ide/ide.c:160-215 | the code a read returns is 0 exactly when every sector asked for is on the disk and without fault |
| Ide.StoredReadsBack | drivers/ide/ide.c:433-460 | what one transfer stored the next one reads, without error, into any buffer |
| Ide.Driver.WriteThenRead | drivers/ide/ide.c:475-516 | writing a range and reading it gives back every sector and changes no sector outside it, in all three modes |
| Ext2Dir.UnpackFrom | drivers/ext2/ext2.c:108-118 | the word index the code computes is that of byte i |
| Ext2Dir.GetData | drivers/ext2/ext2.c:106-119 | the little-endian bytes of the words from start, and nothing past them |
| Ext2Dir.LittleEndian | drivers/ext2/ext2.c:106-119 | a word's bytes are its digits in base 256, the lowest first |
| Ext2Dir.PackUnpacked | drivers/ext2/ext2.c:106-119 | repacking unpacked words is the identity |
| Ext2Dir.UnpackPacked | drivers/ext2/ext2.c:106-119 | unpacking packed bytes is the identity |
| Ext2Dir.ReadDirent | drivers/ext2/ext2.c:121-137 | inode, record length and name as the kept bits give them |
| Ext2Dir.WalkUnique | drivers/ext2/ext2.c:180-194 | a walk reads one list of entries at most |
| Ext2Dir.WalkOutcome | drivers/ext2/ext2.c:180-194 | within as many steps as there are words the walk ends at a zero inode, meets a live record shorter than a word, or leaves the words, and only one of these; it reads some list exactly in the first case and goes on for ever exactly in the second |
| Ext2Dir.ShortRecordNeverEnds | drivers/ext2/ext2.c:180-194 | a walk that meets such a record, now or later, reads no finite list |
| Ext2Dir.LongRecordStays | drivers/ext2/ext2.c:121-187 | where a record that the format allows is written, the walk stays for ever exactly when its length is a multiple of 256 and its inode is not |
| Ext2Dir.LongRecordNeverEnds | drivers/ext2/ext2.c:121-187 | a directory of "." and a record of 256 bytes, whatever follows: the walk gets to the second and never ends |
| Ext2Dir.FindInDir | drivers/ext2/ext2.c:171-196 | for every directory whose walk ends, the inode of the last entry whose name compares equal, or FILE_NOT_FOUND |
| Ext2Dir.DecodeEncoded | drivers/ext2/ext2.c:121-137 | of any record the format allows the driver reads the low bytes of inode and length and the front of the name given by four bits of its length, whatever follows |
| Ext2Dir.DecodeExact | drivers/ext2/ext2.c:121-137 | such a record is read as written exactly when inode and length are below 256 and the name is below 16 bytes |
| Ext2Dir.WalkEncoded | drivers/ext2/ext2.c:180-194 | the walk over any written list of records, wherever it lies and up to a zero inode, reads exactly that list if and only if every record is live and kept whole by the masks |
| Ext2Dir.LastMatchExact | drivers/ext2/ext2.c:189-195 | for stored records the result is FILE_NOT_FOUND exactly when no record has the name, and otherwise the last such record's inode |
| Ext2Dir.FindStored | drivers/ext2/ext2.c:171-196 | the search run on the encoding of any list of records, whatever follows it, ends with the inode of the last record of the name or FILE_NOT_FOUND |
| Ext2Path.PathToInode | drivers/ext2/ext2.c:208-248 | for every path and every lookup the result is the fold of the lookup from inode 2 over the path's names |
| Ext2Path.DescendLast | drivers/ext2/ext2.c:217-246 | the last name is looked up in what the names before it lead to |
| Ext2Path.ClosedBefore | drivers/ext2/ext2.c:217-246 | the names the scan closes are the slash-separated pieces after the first slash without an empty last one |
| Ext2Path.PathParses | drivers/ext2/ext2.c:208-248 | the names of a path are what is between its slashes, whatever is before the first; a slash at the end adds none and slashes in a row give empty names |
| Ext2Path.JoinParses | drivers/ext2/ext2.c:208-248 | joining nonempty slash-free names and parsing gives the names back |
| Ext2Inode.GroupIndexBijection | drivers/ext2/ext2.c:25-33 | group and index are a bijection with inode numbers |
| Ext2Inode.InodeByteExact | drivers/ext2/ext2.c:91-97 | sector and offset, in 32-bit arithmetic, name the inode's byte in the table exactly for 1024-byte blocks, an index below 2^24 and a block below 2^31 |
| Ext2Inode.RecordsDisjoint | drivers/ext2/ext2.c:91-97 | a record lies in the 1024-byte window, and the bytes looked at for two inodes are disjoint exactly when their indices differ modulo 2^24 |
| Ext2Inode.IndicesCollide | drivers/ext2/ext2.c:91-97 | indices 0 and 2^24 are looked for in the same place |
| Ext2Inode.InodeInBuffer | drivers/ext2/ext2.c:94-97 | what the buffer holds where the inode is looked for: the disk's words at the byte addressed for index 0 or 1 modulo 4, the old contents otherwise; in range that byte is the inode's |
| Ext2Inode.DirectoryThroughDriver | drivers/ext2/ext2.c:175-194 | a directory whose records end before word 128 is exactly what the walk over the driver's buffer reads |
| Ext2Inode.DirectoryReadIff | drivers/ext2/ext2.c:175-194 | whatever the buffer held before, a directory is read right through the driver if and only if its records end before word 128 |
| Ext2Inode.FindThroughDriver | drivers/ext2/ext2.c:171-196 | read through the driver and searched, such a directory gives the inode of the last record of the name or FILE_NOT_FOUND |
| Screen.TabNeverWraps | drivers/vga/vga.c:44-60 | the tab always advances by 4 and its new-line branch is dead |
| Screen.ControlExact | drivers/vga/vga.c:62-83 | a new line moves to the next multiple of 160 and a tab by 4, with the memory as it was; on a full page both leave a blank screen and 160 or 4; a NUL does nothing |
| Screen.PrintedExact | drivers/vga/vga.c:62-92 | any other character and its attribute go to the cell at the pointer, on a full page to the first cell of a blank screen, and nothing else changes |
| Screen.PutAllThen | src/stdio.c:9-23 | writing a concatenation is writing one text after the other |
| Screen.ShowsStep | drivers/vga/vga.c:62-92 | one printable character more on a page with room, or on a fresh page |
| Screen.PagedText | drivers/vga/vga.c:62-108 | n printable characters from a cleared screen leave the last ((n-1) mod 2000) + 1 of them from the top, the rest blank, and the pointer behind them |
| Screen.LinesShow | drivers/vga/vga.c:39-92 | after up to 25 lines shorter than a row, row k shows line k with blanks behind it, the rows below are blank, and the pointer is at the start of the first of them |
| Screen.NextLine | drivers/vga/vga.c:39-42 | a new line is the start of a row, after the pointer and no more than a row on |
| Vga.Console.Tab | drivers/vga/vga.c:44-60 | the pointer moves by 4 |
| Vga.Console.PutChar | drivers/vga/vga.c:62-92 | memory and pointer after one character; the mutual recursion with clear terminates |
| Vga.Console.Clear | drivers/vga/vga.c:94-108 | every cell blank, nothing past the screen touched, pointer home |
| Vga.Console.Backspace | drivers/vga/vga.c:110-116 | the cell before the pointer is blanked and the pointer is on it |
| Vga.Console.Write | src/stdio.c:9-23 | the text put character by character |
| Format.ParseSpelled | drivers/vga/vga.c:126-142 | parsing a format written from pieces gives the pieces back |
| Format.ScanExact | drivers/vga/vga.c:133-142 | after the percent sign a 0 is the flag, one more digit the width, and the next character, even a digit, the conversion |
| Format.FieldLength | drivers/vga/vga.c:158-164 | a field is as long as its text or its width, whichever is more, and ends in the text |
| Format.RenderSplits | drivers/vga/vga.c:126-172 | each directive consumes one argument |
| Format.RenderStep | drivers/vga/vga.c:126-172 | a literal character stands for itself and a directive for what it puts of the next argument, in order |
| Format.NumberPut | drivers/vga/vga.c:144-164 | for 'd', 'u' and 'x' pad characters, '0' with the flag and blanks without, and then the numeral without leading zeros that reads as the argument, as long together as the larger of numeral and width |
| Format.StringPut | drivers/vga/vga.c:153-164 | for 's' the padded string, or "(null)" for a null pointer |
| Format.BytePut | drivers/vga/vga.c:166-168 | for any other character the argument's low byte alone, whatever the width |
| Printf.ScanDirective | drivers/vga/vga.c:133-142 | optional 0, at most one digit, conversion |
| Printf.PutDirective | drivers/vga/vga.c:144-170 | one directive puts its padded text, or one character; strings end at their NUL |
| Printf.OutputRenders | drivers/vga/vga.c:126-172 | reading the format off character by character gives the rendering of its pieces |
| Printf.Printf | drivers/vga/vga.c:118-173 | for a C-string format and arguments of the right kinds, what reaches the screen is the rendered format |
| Numbers.EmitDigits | src/stdlib.c:23-26 | the loop leaves the digits least significant first and nothing else |
| Numbers.ReverseInPlace | src/stdlib.c:31-43 | the buffer part reversed in place |
| Numbers.Itoa | src/stdlib.c:7-44 | the text, a NUL, and the rest of the buffer unchanged |
| Numbers.TextParses | src/stdlib.c:7-44 | every 32-bit value is recovered from its text by a reader that takes '0' to '9', and 'a' to 'f' for 'x', and refuses anything else: signed for 'd', unsigned otherwise |
| Numbers.TextUnique | src/stdlib.c:7-44 | that text is the only one without leading zeros or a signed zero that reads as the value |
| Numbers.TextChars | src/stdlib.c:23-26 | after the sign there are decimal digits alone, or hexadecimal ones in lower case for 'x' |
| Numbers.TextShape | src/stdlib.c:7-44 | no leading zero except in "0", and at most 12 bytes with the NUL |
| Numbers.ToString | src/memory.c:473-490 | count, then fill from the right: the text, a NUL, and the rest unchanged |
| Numbers.PlainExact | src/memory.c:473-490 | nothing for 0, the digits of a positive number, and for a negative one each digit of its magnitude counted down from '0' |
| Numbers.PrintersAgreeIff | src/memory.c:473-490 | the two printers leave the same text exactly for positive numbers |
| CStrings.StrLen | src/stdlib.c:113-123 | the length of the string before the first NUL |
| CStrings.StrCmp | src/stdlib.c:102-111 | zero exactly for equal strings, otherwise the signed difference at the first mismatch |
| CStrings.AsCharExact | src/stdlib.c:102-111 | the characters compared are signed, from -128 to 127 |
| CStrings.Append | src/stdlib.c:125-131 | the string grows by the character, all other bytes stay |
| CStrings.IsBackspaceValid | src/stdlib.c:133-149 | true exactly for a nonempty string, which loses its last character |
| Keyboard.TableIsPrintable | drivers/keyboard/keyboard.c:16-20 | every key types a printable character |
| Keyboard.TablesAgree | drivers/keyboard/keyboard.c:9-20 | every key types the character it is named after in the driver's other table, a space for the space bar and '?' for keys with longer names |
| Keyboard.Editor.Callback | drivers/keyboard/keyboard.c:22-53 | buffer and screen after every kind of key; Enter hands over exactly the line, empties it, and leaves the screen printed on, cleared or not, with the prompt |
| Keyboard.ClearShowsPrompt | drivers/console/console.c:51-60 | after CLEAR the screen shows the prompt from its top left corner and nothing else |
| Keyboard.ReplyThenPrompt | drivers/keyboard/keyboard.c:36-42 | without CLEAR the reply and the prompt are written one after the other |
| Keyboard.LineExact | drivers/keyboard/keyboard.c:22-53 | a key with a character adds it to the line, backspace takes it back and does nothing on an empty line, and codes above 57 do nothing |
| Keyboard.EchoStep | drivers/keyboard/keyboard.c:28-52 | a key does to the echoed screen what it does to the line; backspace on an empty line does nothing |
| Keyboard.EchoShows | drivers/keyboard/keyboard.c:44-52 | the cells from the prompt on show the line, the pointer is behind it, what the line gave up is blank, and no cell before or behind changed |
| Keyboard.Editor.TypeKeys | drivers/keyboard/keyboard.c:22-53 | after every run of keys without Enter that fits buffer and page, the buffer is the push/pop line and the screen shows exactly it |

## Left out

- Port instructions, segment registers, delays and the wait for a busy device: replaced by the abstract channel.
- Boot, descriptor tables, interrupt stubs, panic messages and which command the console's dispatch chooses: setup and output.
- `ide_init`: device records are given; the model takes them as already filled in.
- `printk` in `src/stdio.c`: its argument pointer and padding variables are not initialised to anything meaningful.
- `kstd_mem_calloc` and `kstd_mem_realloc`: empty bodies.
- The bytes of heap block headers: headers are objects. Where they lie is modelled, what a user's writes into one do is not.
- Block group descriptors past the first group, indirect blocks and `rewrite_bgds`.
- Undersized buffers and missing NUL bytes in `drivers/ext2/ext2.c`: names and buffers have adequate length.
- The character-class helpers of `src/stdlib.c` and the process list of `src/stdproc.c`: only easy claims.
- FramePool.LiveFramesDisjoint: for pools that do not wrap the 32-bit address space, as the promise itself needs.
- Vga.Console.Backspace: for a pointer of at least 2; below that the code writes in front of the video memory.
- Keyboard.Editor.Callback: for a line of at most 254 characters when a character is typed, as the 256-byte buffer holds; with 255 the code writes its NUL behind the buffer.
- Ext2Dir.FindInDir: for a directory whose walk ends, which `Ext2Dir.WalkOutcome` decides; for another one the call never returns or reads past the buffer.
