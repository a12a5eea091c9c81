# The memory stack and the console of a small x86 kernel

This project models, in Dafny, four layers of the kernel and proves what they promise.

* **The slab allocator** (`core/alloc.c`). Class `Alloc.Allocator` works on memory as a map
  from word addresses to 32-bit words: headers, stacks of free cells, bin lists, the skip list
  of free blocks and the `prev`/`next` chain are all words of that map, and the map's domain is
  the set of words written so far, so no load can reach an uninitialised word. Every method is
  proved to carry out one step of an abstract heap (`HeapModel.Heap`), and the theorems about
  client runs are proved of that heap. Every live `ASSERT` is an `assert` at the same place.
  Module `Clients` closes the circle: it runs arbitrary client programs on the class and
  compares memory with an ideal one, byte for byte.
* **Frames, page tables and `sbrk`** (`core/mem.c`). Class `Paging.Pager`, with the bitmap
  as 32-bit words and two levels of tables, against a set of frames and a flat map of pages.
  The allocator gets its memory from this class; `Boot.Start` shows that start-up establishes
  what the allocator relies on.
* **The console** (`core/vga.c`, with the loops of `core/kernel.c`). Class `Vga.Screen`, a
  2000-cell window that scrolls in place, against a terminal that never loses a row.
* **The formatter** (`core/kprintf.c`). Class `Kprintf.Printer` against a renderer, down to
  what appears on the screen.

How the pieces lie: `bits`, `kernel` (memory, copy loops), `heap`, `heap_steps`, `heap_runs`,
`heap_theorems` (abstract heap, operations, theorems), `skiplist`, `layout`, `layout_steps`,
`walks` (the heap in memory), `paging_model`, `paging`, `paging_walk`, `alloc`, `boot`, `clients`, `vga`,
`kprintf`, and `machine` for the two constants that all layers share.

Constants are those of the compiled code on a 32-bit machine. `SIZE_MAX` and `UINT32_MAX` are
not defined where line 119 of `core/alloc.c` compares them, so the 32-bit branch is the one
compiled: 11 bins, smallest cell 4 bytes, header sizes 12 and 44. The comment there promises
assertions only in debug mode; `include/kernel.h` does not look at `NDEBUG`, so they are live.
The comment on `SKIP_MAX_LEVEL` says 6 levels; the code has 7, numbered 0 to 6.
`HALT_AND_CATCH_FIRE` is an out-parameter `halted`, and each contract says exactly when it is
set, in terms of the state before the call.

Four results about the code as it stands:

* `realloc` copies the old block's whole room. That fits the new block if and only if the old
  block is a big one or the new bin is not below the old one (`HeapTheorems.ReallocCopyFits`);
  `HeapTheorems.ReallocShrinkOverruns` is a run after which 128 bytes go into a cell of 8 with
  a live neighbour, and `Clients.CopyOverwrites` shows that neighbour's bytes lost.
* The tables that `sbrk` makes are placed from the second page of memory on, regardless of what
  lies there. Once there are enough of them they reach those made by `paging_install`, and two
  tables share one address (`PagingWalk.WalkIsUnambiguous`, exactly when; `Boot.LargeHeap`, an
  instance).
* After `heap_install` the placement pointer is 0, so the next page table is handed out at
  address 0 and cannot be told from a missing one. `sbrk` asks for every page twice, and that
  is what makes the identity mapping come out right (`Paging.Pager.MapNext`).
* The search for the node in `klmalloc_skip_list_delete` (lines 421-431) never does anything:
  the descent already stops in front of the right node, because only the first block of its
  size is ever deleted (`Alloc.Allocator.SkipDelete`).

## Model

| member | source | states |
|---|---|---|
| Clients.Execute | core/alloc.c:506-858 | Any run of malloc, calloc, realloc, free and stores by a well-behaved client, on the real allocator: it halts exactly when the run's heap outgrows the frames; otherwise the heap is the model's, live blocks are safe, and every byte stored, and every zero of `calloc`, is in memory at the end wherever `realloc` has taken it, unless it was stored to again or let go. |
| Clients.ReadAfterWrite | core/alloc.c:506-842 | After such a run, a stored byte reads back if nothing later stored there or freed or moved its block. |
| Clients.ReadAfterMove | core/alloc.c:777-842 | ... and at its new place if `realloc` moved its block to one that still includes it. |
| Clients.ReadZero | core/alloc.c:853-858 | A byte of a block from `calloc` reads zero until something is stored there. |
| Clients.RunRemembers | core/alloc.c:506-858 | The three follow from what memory holds at the end of the run. |
| Clients.AnswerServes | core/alloc.c:506-858 | The pointer that a request for bytes returns in a run was not live, and is, with the size asked for. |
| Clients.Perform | core/alloc.c:143-157 | One event of such a run, halting exactly when it would move the break beyond the frames; a store is in memory afterwards, and a block from `calloc` is zero. |
| Clients.EndGrows | core/alloc.c:525-627 | The break never moves down over a run. |
| Clients.UntouchedKept | core/alloc.c:506-842 | A block that a run does not free, move or store into keeps its contents, whatever else the run does. |
| Alloc.Allocator.Move | core/alloc.c:810-832 | The branch of `realloc` that moves a block: every byte of the old block is at the new place, every other live block is as it was; halts exactly when the heap must grow beyond the frames. |
| Clients.MoveHolds | core/alloc.c:810-832 | What that branch ensures of memory is what an ideal `realloc` promises of contents: the first min(old, new) bytes at the new place, other blocks unchanged. |
| HeapTheorems.RunSafe | core/alloc.c:506-842 | Over every run, live blocks are as large as asked, inside the heap, pairwise disjoint and clear of every header, and the whole heap invariant holds. |
| HeapTheorems.RunNarrow | core/alloc.c:303-320 | Over every run, block sizes stay positive as signed words, so the signed comparisons of the skip list agree with the model's. |
| HeapTheorems.InvIsSafe | core/alloc.c:506-771 | The heap invariant implies that safety. |
| HeapTheorems.BestFit | core/alloc.c:569-627 | A request above 2048 bytes gets a smallest free block that is large enough, and the heap grows if and only if there is none. |
| HeapTheorems.GrowthInPages | core/alloc.c:520-632 | A smaller one makes the heap grow, by one page, if and only if no page of its bin has a free cell; a new block has as many pages as hold header, request and one byte more. |
| HeapTheorems.MallocFreeMalloc | core/alloc.c:506-771 | In every reachable state, malloc, free, malloc of one size gives the same pointer twice; if the first did not call `sbrk`, the free restores the heap exactly. |
| HeapTheorems.ReallocStays | core/alloc.c:795-808 | A block stays in place if and only if its payload covers the request, a cell if and only if the request is not above its bin's number; nothing but the recorded size changes then. |
| HeapTheorems.ReallocMoves | core/alloc.c:810-832 | Otherwise the block's place is taken by the one that malloc returns, which was not live. |
| HeapTheorems.ReallocCopyFits | core/alloc.c:813-830 | The copy in `realloc` fits the new block if and only if a small block does not move to a lower bin. |
| HeapTheorems.ReallocShrinkOverruns | core/alloc.c:815-830 | After malloc(128), malloc(8), malloc(8) and a free, shrinking the first block to 8 copies 128 bytes into a cell of 8 whose neighbour is live. |
| Clients.CopyOverwrites | core/alloc.c:813-830 | In every state with a live neighbour in the way, if the byte copied to its start differs from the one its owner stored there, memory no longer holds what the owner stored. |
| HeapTheorems.HeaderRecovery | core/alloc.c:664-674 | Masking a live pointer gives its own header, and the size word there is above 11 exactly for big blocks, at most 9 for cells; a payload begins 44 bytes behind its header. |
| HeapTheorems.SmallRequests | core/alloc.c:162-183 | Requests of up to 2048 bytes are served from cells, larger ones with blocks. |
| HeapTheorems.CellCounts | core/alloc.c:543-557 | A page has 1021, 510, 255, 127, 63, 31, 15, 7, 3 or 1 cells, by its bin. |
| HeapTheorems.FirstCellPointer | core/alloc.c:520-564 | The first malloc(4) of all returns the address 12 bytes into the heap. |
| HeapTheorems.FirstBlockPointer | core/alloc.c:626-647 | The first malloc(4000) of all returns the address 44 bytes into the heap, and its block has a payload of 4052. |
| HeapTheorems.CellsConserved | core/alloc.c:543-557 | For each small page, free cells plus live cells are exactly the cells built when the page was made. |
| HeapTheorems.HeapBytes | core/alloc.c:525-646 | Small pages plus big blocks with their headers account for every byte obtained from `sbrk`. |
| HeapModel.BinSizeIsBest | core/alloc.c:162-183 | A request goes to the smallest bin whose cells hold it, and to the big bin exactly when none does. |
| HeapRuns.MallocKeeps | core/alloc.c:506-650 | malloc(n), n > 0, makes exactly one pointer live that was not, with room for n bytes, keeps the invariant and grows the heap by the stated amount; malloc(0) does nothing. |
| HeapRuns.FreeKeeps | core/alloc.c:655-771 | free makes exactly that pointer dead and keeps the invariant. |
| HeapRuns.ReallocKeeps | core/alloc.c:777-842 | realloc replaces the old pointer by the new one and changes no other. |
| HeapRuns.StayingFits | core/alloc.c:802-808 | A block returned in place has room for the request: a small page's bin number is below its cell size. |
| HeapSteps.TakeCellKeeps | core/alloc.c:560-564 | Popping a cell, and dropping a page that became full from its list, keeps the invariant. |
| HeapSteps.ReturnCellKeeps | core/alloc.c:763-769 | Pushing a cell, and relisting a page that was full, keeps the invariant. |
| HeapSteps.AddBlockKeeps | core/alloc.c:626-647 | A new block at the break keeps the invariant, physical chain included. |
| HeapSteps.TakeBlockKeeps | core/alloc.c:574-578 | Taking a block off the free list keeps the invariant. |
| HeapSteps.ReturnBlockKeeps | core/alloc.c:751-756 | Putting a block in front of the first that is as big keeps the invariant, the order by size in particular. |
| SkipList.LevelNested | core/alloc.c:379-387 | Level i + 1 is a subsequence of level i. |
| SkipList.LookAhead | core/alloc.c:303-309 | At every node of the descent, the test says exactly whether a smaller block follows on that level. |
| SkipList.BottomNext | core/alloc.c:314-320 | Where the descent ends, the next block is the first that is large enough, or NULL. |
| SkipList.SpliceStep | core/alloc.c:382-387 | Relinking level i inserts the node there and changes no other level. |
| SkipList.Inserted | core/alloc.c:325-389 | Insertion, for any level from 0 to 6 and any equal sizes, keeps the list sorted, nested and terminated, with nothing above the top level. |
| SkipList.UnlinkTest | core/alloc.c:437-440 | The test that stops the unlinking tells exactly the levels the node is on from the others. |
| SkipList.Unlinked | core/alloc.c:436-446 | Unlinking removes that node from all of its levels and nothing else. |
| Walks.HeaderWords | core/alloc.c:192-209 | A header's word at offset 8 is the page's bin or the block's payload size; a block's word at offset 4 is NULL exactly while the block is live. |
| Walks.BinListHolds | core/alloc.c:221-250 | Following `next` from a bin's head visits exactly the pages of that bin with a free cell, and ends. |
| Walks.StackHolds | core/alloc.c:461-499 | Following a page's stack visits exactly its cells that are not live, and ends. |
| Walks.SkipLevelHolds | core/alloc.c:203-225 | Following `forward[i]` visits exactly the free blocks of at least that height; on level 0, every big block that is not live; above the top level the head is NULL. |
| Walks.PrevChainHolds | core/alloc.c:637-642 | Following `prev` from the newest block visits every big block ever made, in falling address order, and `next` and `prev` undo each other. |
| Walks.FollowList | core/alloc.c:247-260 | Step k along a threaded list reaches its element k. |
| LayoutSteps.LiveStore | core/alloc.c:453-488 | Whatever a client stores in its own block, the allocator's data and all other blocks are untouched. |
| Layout.OnlyMetaKeepsLive | core/alloc.c:506-771 | A step that writes only the allocator's words and the freed cell leaves every other live block alone. |
| LayoutSteps.PopCell | core/alloc.c:461-474 | The words that a pop stores, with the page taken off its list if that was its last cell, represent the heap with the top cell live. |
| LayoutSteps.PushCell | core/alloc.c:483-488 | The words that a push stores, with the page put back on its list if it was full, represent the heap with the cell on top of its stack again. |
| LayoutSteps.NewBlock | core/alloc.c:632-646 | The words stored for a new block represent the heap with that block live and last on the physical chain, and disturb nothing else. |
| Alloc.Allocator.Malloc | core/alloc.c:506-650 | Carries out the model's malloc, returns its pointer, disturbs no live block; halts exactly when the heap must grow beyond the frames. |
| Alloc.Allocator.Free | core/alloc.c:655-771 | Carries out the model's free and disturbs no other live block; NULL changes nothing at all. |
| Alloc.Allocator.Realloc | core/alloc.c:777-842 | Carries out the model's realloc, preserves the old contents at the new place, disturbs no other live block; if payload or bin number covers the request it returns the old pointer and changes no word of memory. |
| Alloc.Allocator.Calloc | core/alloc.c:853-858 | As malloc, and every byte asked for is zero. |
| Alloc.Allocator.MallocSmall | core/alloc.c:516-564 | A request that a cell can hold gets the top cell of its bin's first page, from a new page if the bin has none; only the allocator's own words change. |
| Alloc.Allocator.MallocBig | core/alloc.c:565-649 | A larger request gets the best free block, or else a block of its own at the break; only the allocator's own words change. |
| Alloc.Allocator.FindBest | core/alloc.c:297-320 | Returns what a linear scan of the level-0 list returns: its first block that is large enough. |
| Alloc.Allocator.SkipInsert | core/alloc.c:325-389 | The block goes before the first one as big, on levels 0 to some level, and only forward words change. |
| Alloc.Allocator.SkipDelete | core/alloc.c:395-452 | The first block of its size leaves the list, and only forward words change. |
| Alloc.Allocator.Descend | core/alloc.c:346-354 | Records, on every level, the last node smaller than the key. |
| Alloc.Allocator.BuildStack | core/alloc.c:543-557 | Threads all cells of a page, lowest on top, inside that page. |
| Alloc.Allocator.RandomLevel | core/alloc.c:282-292 | Terminates with a level from 0 to 6: the number of draws below 0x7FFFFFFF before the first that is not, but no more than 6. |
| Boot.Start | main.c:20-32 | Start-up halts exactly when there are too few frames for image, bitmap, directory and tables, a bound computed beforehand; otherwise the allocator is valid, empty and has a page-aligned heap below which everything is mapped. |
| Boot.LargeHeap | core/mem.c:243-262 | With two gigabytes of memory and a heap of a little more than one, two page tables lie at the same address. |
| PagingModel.MarkOne | core/mem.c:86-94 | Setting a bit adds exactly that frame to the set. |
| PagingModel.UnmarkOne | core/mem.c:96-104 | Clearing a bit removes exactly that frame. |
| Paging.Pager.TestFrame | core/mem.c:106-114 | Non-zero exactly for members. |
| Paging.Pager.FirstFrame | core/mem.c:116-130 | The least free frame, or -1 exactly when all are taken. |
| Paging.Pager.SetFrame | core/mem.c:86-94 | Adds one frame to the set. |
| Paging.Pager.ClearFrame | core/mem.c:96-104 | Removes one frame from the set. |
| Paging.Pager.AllocFrame | core/mem.c:132-151 | An unbacked page gets the least free frame, which becomes taken, is present, writeable if and only if that was asked for, and closed to user code if and only if it is the kernel's; no other field, page or frame changes; halts exactly when no frame is free. |
| Paging.Pager.KmallocReal | core/mem.c:21-36 | Rounds down, not up, when aligning, and only past the first page. |
| Paging.Pager.GetPage | core/mem.c:197-215 | Reaches the entry that the flat map has for that page; making a table changes no entry and records its address, in both arrays of the directory. |
| PagingModel.DirectoryWord | core/mem.c:208-211 | A directory word gives back the table's address and the three flags. |
| PagingWalk.DirectoryWalk | core/mem.c:197-215 | Whatever has been mapped, the masked directory word of a table is the address at which `get_page` has it. |
| PagingWalk.ProcessorWalk | core/mem.c:197-262 | For every mapped page, the walk from the directory word by address and index finds the entry that `get_page` finds, and there the frame of the page's own number, present, read-only and open to user code. |
| PagingWalk.WalkIsUnambiguous | core/mem.c:243-262 | No two tables share an address if and only if the placement pointer, after `heap_install`, has not passed the first table made before; the pointer is a function of the break. |
| PagingWalk.OneTablePerAddress | core/mem.c:206-211 | Then the address in a directory word determines the table. |
| PagingWalk.SharedAddress | core/mem.c:243-262 | Beyond that, the first table of all shares its address with a certain later one. |
| PagingModel.FillOne | core/mem.c:207-211 | Each table made is one missing table less. |
| Paging.Pager.MapBelowPlacement | core/mem.c:175-179 | The loop ends although its own calls raise its bound, at a bound given in closed form; everything below it is identity-mapped, by tables that lie one after another; it halts exactly when the frames do not reach that bound. |
| PagingModel.BootFixpoint | core/mem.c:175-179 | That bound is the first at which the tables made suffice for everything below it, themselves included. |
| Paging.Pager.PagingInstall | core/mem.c:166-182 | Leaves the placement pointer at that bound and exactly the frames below it taken, or halts; which of the two depends only on the pointer and the memory size at the start. |
| Paging.Pager.HeapInstall | core/mem.c:243-247 | The heap starts page-aligned where the mapped pages end. |
| Paging.Pager.Sbrk | core/mem.c:249-262 | Returns the old break; keeps the break aligned and everything below it, and nothing else, identity-mapped; halts exactly when the new break is past the frames. |
| PagingModel.Frontier | core/mem.c:116-148 | Under an identity mapping the least free frame is the number of the next page. |
| KernelC.ForwardCopyMoves | core/kernel.c:23-28 | Copying forwards moves the cells intact when the destination does not start inside the source. |
| KernelC.OverlapReplicates | core/kernel.c:23-28 | Otherwise there are contents that come out wrong. |
| KernelC.Memcpyw | core/kernel.c:23-28 | Leaves the buffer as a copy made one cell at a time, forwards, would. |
| KernelC.Memory.Memcpy | core/kernel.c:8-21 | Copies each byte, writes nothing else. |
| KernelC.Memory.Memset | core/kernel.c:34-46 | Fills each byte, writes nothing else. |
| KernelC.Memsetw | core/kernel.c:52-64 | Fills each cell, writes nothing else. |
| KernelC.Strlen | core/kernel.c:70-76 | The index of the first NUL. |
| KernelC.LittleEndian | core/kernel.c:8-21 | The bytes of a word, from the lowest address up, are its digits in base 256, least significant first. |
| Vga.Screen.Putch | core/vga.c:64-95 | For every character the window remains the last 25 rows of the unbounded terminal; and in the window's own terms, what each control character and each printable one does to cells and cursor, the last column and the last row included. |
| Vga.LineFeed | core/vga.c:79-93 | The start of the next row; no old cell changes, and a new row is blank. |
| Vga.CarriageReturn | core/vga.c:76-78 | The start of the same row; nothing else changes. |
| Vga.Backspace | core/vga.c:70-72 | One column back unless at the start of the row; nothing is erased. |
| Vga.Tab | core/vga.c:73-92 | The least multiple of eight above the column, or the start of the next row. |
| Vga.OtherControl | core/vga.c:70-87 | Any other code below 0x20 changes nothing. |
| Vga.Printable | core/vga.c:83-92 | The character's cell at the cursor, and the cursor one on, or at the start of the next row. |
| Vga.ShownControl | core/vga.c:64-95 | The same laws for the control characters, on window and cursor, scrolling included. |
| Vga.BlankCells | core/vga.c:15-54 | A blank cell is 0x20 below the low eight bits of the attribute. |
| Vga.Screen.Puts | core/vga.c:101-108 | The same for every string. |
| Vga.HistoryKept | core/vga.c:64-95 | Rows above the cursor never change again. |
| Vga.PrintableText | core/vga.c:83-92 | Printable text of any length runs on cell by cell from the cursor: wrapping is only counting. |
| Vga.CellParts | core/vga.c:69-85 | A stored cell is the character and the low eight bits of the attribute. |
| Vga.TabStop | core/vga.c:73-75 | The mask gives the next multiple of eight. |
| Vga.Screen.Cls | core/vga.c:47-58 | Every cell becomes a space in the current colours and the cursor goes home; rows that scrolled off remain. |
| Vga.Screen.SetTextColor | core/vga.c:114-120 | The attribute is the foreground's low four bits and the background above them. |
| Kprintf.Printer.Kprintf | core/kprintf.c:52-105 | For every well-formed format with matching arguments that fits, the buffer is the renderer's output and a NUL, and the screen shows it up to its first NUL. |
| Kprintf.Printer.ParseNum | core/kprintf.c:17-32 | Appends the number's digits. |
| Kprintf.Printer.ParseHex | core/kprintf.c:37-45 | Appends the eight hexadecimal digits. |
| Kprintf.DecodeDigits | core/kprintf.c:17-32 | Reading the digits back gives the number. |
| Kprintf.DigitsCanonical | core/kprintf.c:17-32 | Digits are in range and there is no leading zero. |
| Kprintf.NumeralUnique | core/kprintf.c:17-32 | No other numeral without a leading zero reads back as the number. |
| Kprintf.HexRoundTrip | core/kprintf.c:37-45 | The eight digits give a 32-bit value back. |
| Kprintf.RenderJoins | core/kprintf.c:62-101 | One call with two formats joined prints what two calls print. |
| Kprintf.PercentD | core/kprintf.c:91-93 | `%d` prints characters from '0' to '9' that read as its argument in base 10, without a leading zero. |
| Kprintf.PercentX | core/kprintf.c:88-90 | `%x` prints eight characters, each the lower-case digit of its four bits, that read as its argument in base 16. |
| Kprintf.PercentSC | core/kprintf.c:79-87 | `%s` prints its string and `%c` the low byte of its argument. |
| Kprintf.PercentOther | core/kprintf.c:94-99 | `%` before any other character prints that character and takes no argument. |
| Kprintf.Backslash | core/kprintf.c:66-75 | Each of the six escapes prints its own code, any other nothing. |
| Kprintf.Plain | core/kprintf.c:63-65 | Any other character prints itself. |

## Left out

- Hardware and glue: port I/O, `move_csr`, CR0/CR3, GDT, IDT, interrupts, keyboard, timer, multiboot contents, panic, the virtual file system and ext2 stubs; they carry no state that the properties here depend on.
- The splitting and coalescing code under `#if 0` in `core/alloc.c`; it is not compiled.
- Physical overlap of early placement allocations: `kmalloc_real` rounds down, the bitmap's allocation and clearing count bytes where words are meant, and addresses restart at 0 after `heap_install`. The bitmap, the directory and each table are separate zeroed objects here, and the bitmap has all of its `nframes / 32` words.
- What two page tables at one address do to each other: each table is an object of its own here, and the page-table results hold of memory as long as no two share an address (`PagingWalk.WalkIsUnambiguous`).
- `free_frame`: it passes a frame number where `clear_frame` expects an address, and nothing calls it; frame properties are about allocation-only runs.
- Deleting a skip list node that is not the first of its size; no caller does it.
- Clients.Execute: clients free and reallocate only NULL and live pointers, store only inside the size they asked for, never shrink a small block to a lower bin through `realloc` (the code overruns there), never make the break wrap around the address space, and ask for sizes that stay below 2^31 when rounded to pages (`size_t` is a signed `long` here).
- Alloc.Allocator.Calloc: the product of the two arguments is one of those sizes; overflow of the product is excluded.
- Paging.Pager.PagingInstall: the kernel image ends above the first page and leaves room for all page tables below the top of the address space, and there are at most 2^20 frames, whose numbers fit an entry's frame field.
- Alloc.Allocator.RandomLevel: nothing is claimed about how likely a level is; the generator's round is written out but has no property of its own.
- Alloc.Allocator.Descend: the three identical descents of the source are one method, so the search that only reads also records its path.
- Paging.Pager.Sbrk: with the address space wrapped around, it is shown that nothing is mapped, and no more.
- Paging.Pager.KmallocReal: the optional `phys` result is the returned address and has no parameter of its own.
- Kprintf.Printer.Kprintf: formats that end in `%` or a backslash, arguments that do not match, and output of 1024 characters or more are excluded; arguments come as a list of typed values rather than from the stack.
