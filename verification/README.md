# A Dafny model of the Pintos virtual-memory and loader core

This project models the parts of a Pintos kernel (i386) that manage virtual memory and build a user process's image. The model covers:

- **The swap slot table** (`vm/swap.c`). This is a list of page-sized slots on the swap block device. `swap_init` builds it, `swap_out` writes a page into the lowest free slot sector by sector, `swap_in` reads an occupied slot back and frees it, and `swap_destroy` and `swap_free` release slots. It is a class (`Swap.SwapTable`) whose slot list is a `seq` field and whose device is an `array` of sectors.
- **The supplemental page table** (`vm/page.c` and its duplicate `vm/frame.c`). This is a hash table of entries keyed by user page address ("table number"). The model covers lookup and insertion, the stack and file loaders that fill a fresh frame and map it, the `s_page_load` dispatch on the entry's kind, `grow_stack`, and teardown. The table is a class (`Page.PageTable`) with a `map` field. The entry is a tagged variant.
- **Executable loading** (`userprog/process.c`):
  - the ELF executable-header and program-header checks of `load`;
  - `validate_segment`, computed in 32-bit unsigned arithmetic as the C code does;
  - the read/zero split of a loadable segment;
  - `lazy_load_segment`, which registers one FILE entry per page;
  - `load_segment`, which loads the pages into frames at once;
  - `lazy_setup_stack` and `install_page`;
  - `argument_passing`, which lays out `main(argc, argv)` on the initial user stack.
- **17.14 fixed-point arithmetic** (`threads/fixed_point.h`). These are pure functions on 32-bit ints, with C's truncating division.

The collaborators the C code calls are modelled as state or parameters:

- **The file system.** Each open file is a byte string in a `map` from file id to contents. `file_seek` followed by `file_read` is `Page.FileRead`.
- **palloc's user pool and the page directory.** These are `Memory.AddressSpace`: a pool of free frames, the contents of every frame, and a map from user page to frame and writability.
- **The block device.** An array of sectors; `block_read` and `block_write` copy one sector.
- **`thread_current ()->tid`.** A parameter.

The ELF layouts follow the Tool Interface Standard ELF specification v1.2 for the ELF header and program header layouts. The stack layout follows the i386 System V ABI processor supplement, chapter 3. The page size (4096) and `PHYS_BASE` (0xC0000000) are the standard i386 Pintos values, because `threads/vaddr.h` and `lib/round.h` are not part of this model.

Three behaviours of the code that a reader might not expect are modelled as the code has them:

- **Overlapping segments.** When a page of a segment already has an entry, `hash_insert` keeps the existing entry, and `lazy_load_segment` ignores the result and reports success. `Process.LazyLoadSegment` states exactly that: the table is `InsertAll` of the old table, which keeps every old entry.
- **`swap_out` with no free slot.** The code is written to return -1. As written, it actually overwrites the last slot (see Findings).
- **`grow_stack`.** It only builds a stack entry and does not insert it, and its one caller, `lazy_setup_stack`, never inserts it either (see Findings).

Statements in the source that have no effect are not modelled. These are the bare field expressions at `process.c:677` and `process.c:681-682` and at `page.c:184-191`. They leave `file_page`, `mmap` and `swap_slot` uninitialised. No code reads those fields, so the tagged variant `Page.PteKind` simply has no such fields for the kinds that do not set them.

## Model

| member | source | states |
|---|---|---|
| FixedPoint.CDiv | src/threads/fixed_point.h:15 | C's signed `/`: the quotient's magnitude is the truncated quotient of the magnitudes, and its sign is the product of the operands' signs |
| FixedPoint.IntToFp | src/threads/fixed_point.h:8-11 | int_to_fp: the fixed-point number whose value is exactly n |
| FixedPoint.AddFpFp | src/threads/fixed_point.h:23-26 | add_fp_fp: the value of the result is the sum of the values |
| FixedPoint.AddFpInt | src/threads/fixed_point.h:28-31 | add_fp_int: the value of the result is x's value plus n |
| FixedPoint.SubFpFp | src/threads/fixed_point.h:33-36 | sub_fp_fp: the value of the result is the difference of the values |
| FixedPoint.SubFpInt | src/threads/fixed_point.h:38-41 | sub_fp_int: the value of the result is x's value minus n |
| FixedPoint.MultFpFp | src/threads/fixed_point.h:43-46 | mult_fp_fp: the product of the values, truncated toward zero to a multiple of 1/FRAC: below it in magnitude by less than 1/FRAC and on its side of zero |
| FixedPoint.MultFpInt | src/threads/fixed_point.h:48-51 | mult_fp_int: the value of the result is x's value times n, exactly |
| FixedPoint.DivFpFp | src/threads/fixed_point.h:53-56 | div_fp_fp: the quotient of the values, truncated toward zero to a multiple of 1/FRAC |
| FixedPoint.DivFpInt | src/threads/fixed_point.h:58-61 | div_fp_int: x's value divided by n, truncated toward zero to a multiple of 1/FRAC |
| FixedPoint.CDivReal | src/threads/fixed_point.h:15 | C's truncating quotient, read as a real, lies within 1 of the exact quotient, toward zero and on its side of zero |
| FixedPoint.MultFpFpMeaning | src/threads/fixed_point.h:43-46 | mult_fp_fp's 64-bit quotient truncates the exact product of the values |
| FixedPoint.DivFpFpMeaning | src/threads/fixed_point.h:53-56 | div_fp_fp's 64-bit quotient truncates the exact quotient of the values |
| FixedPoint.DivFpIntMeaning | src/threads/fixed_point.h:58-61 | div_fp_int's quotient truncates x's value divided by n |
| FixedPoint.FpToIntZero | src/threads/fixed_point.h:13-16 | fp_to_int_zero truncates toward zero: \|r\|·FRAC ≤ \|x\| < (\|r\|+1)·FRAC, and r has the sign of x |
| FixedPoint.FpToIntNearest | src/threads/fixed_point.h:18-21 | fp_to_int_nearest rounds to the nearest integer, halves away from zero: x - r·FRAC lies in [-FRAC/2, FRAC/2) for x ≥ 0 and in (-FRAC/2, FRAC/2] for x < 0 |
| FixedPoint.CDivExact | src/threads/fixed_point.h:13-16 | dividing an exact multiple k·b by b gives k back, for every sign of k and b |
| FixedPoint.IntRoundTrip | src/threads/fixed_point.h:8-21 | converting an integer to fixed point and back, by truncation or by rounding, returns it |
| FixedPoint.MixedAddSub | src/threads/fixed_point.h:23-41 | add_fp_int and sub_fp_int equal add_fp_fp and sub_fp_fp with the integer converted first |
| FixedPoint.MultIntOfConverted | src/threads/fixed_point.h:48-51 | mult_fp_int(int_to_fp(a), n) == int_to_fp(a·n) |
| FixedPoint.DivUndoesMultInt | src/threads/fixed_point.h:58-61 | div_fp_int(mult_fp_int(x, n), n) == x for n ≠ 0 when the product fits |
| FixedPoint.OneIsUnit | src/threads/fixed_point.h:43-56 | int_to_fp(1) is the unit of mult_fp_fp and div_fp_fp, through their 64-bit intermediates |
| Swap.FirstFree | src/vm/swap.c:133-141 | the scan's result: the first free slot, before which every slot is occupied, or -1 exactly when no slot is free |
| Swap.FindId | src/vm/swap.c:90-98 | the search's result: the first slot with the given id, or -1 exactly when no slot has it |
| Swap.SlotsDisjoint | src/vm/swap.c:152 | slot i's sectors i·spp .. i·spp+spp-1 end before slot j's begin when i < j |
| Swap.SlotInDisk | src/vm/swap.c:21-22 | every slot of a table of block_size/spp slots lies on the device |
| Swap.ReadAfterWrite | src/vm/swap.c:107-112 | reading a slot's sectors back in order gives exactly the page written into them |
| Swap.WriteLeavesOtherSlots | src/vm/swap.c:150-155 | writing one slot leaves every other slot's bytes unchanged |
| Swap.SwapOutSlotAsWritten | src/vm/swap.c:133-147 | the slot swap_out as written writes to: a free slot before which every slot is occupied, or, only when every slot is occupied, the last slot |
| Swap.SwapInSlotAsWritten | src/vm/swap.c:90-104 | the entry swap_in as written acts on: the first with id index, or, only when no entry has that id, the last entry |
| Swap.SwapOutAsWrittenOverwritesWhenFull | src/vm/swap.c:143-158 | as written, a full table makes swap_out reuse the occupied last slot instead of returning -1 |
| Swap.SwapInAsWrittenOutOfRange | src/vm/swap.c:90-112 | as written, an index past the table passes the check when the last slot is occupied: the entry acted on is the occupied last slot, whose id differs from index, and the sectors read lie beyond every slot |
| Swap.SwapTable.constructor | src/vm/swap.c:5-36 | swap_init: block_size/spp slots with ids 0, 1, … in order, all free |
| Swap.SwapTable.BlockWrite | src/vm/swap.c:154 | one sector receives sector-size bytes of the buffer, and no other sector changes |
| Swap.SwapTable.BlockRead | src/vm/swap.c:111 | sector-size bytes of the buffer receive one sector, and the rest of the buffer is unchanged |
| Swap.SwapTable.WritePage | src/vm/swap.c:150-155 | the sector loop of swap_out: the device becomes WriteSlot of the old device, so sector k of the slot holds chunk k of the page |
| Swap.SwapTable.ReadPage | src/vm/swap.c:107-112 | the sector loop of swap_in: the page becomes the slot's sectors concatenated in order |
| Swap.SwapTable.SwapOut | src/vm/swap.c:118-158 | a non-user page exits with nothing changed; otherwise the first free slot is written with the page and marked occupied, and its id is returned; with no free slot, -1 with nothing changed |
| Swap.SwapTable.SwapIn | src/vm/swap.c:75-116 | exits with nothing changed on a non-user page, an unknown index or a free slot; otherwise the page receives the slot's bytes and only that slot becomes free |
| Swap.SwapTable.SwapDestroy | src/vm/swap.c:38-53 | slot index becomes free and nothing else changes |
| Swap.SwapTable.SwapFree | src/vm/swap.c:55-72 | every entry is removed |
| Swap.SwapRoundTrip | src/vm/swap.c:75-158 | swap_out then swap_in of the returned slot gives back the page byte for byte and leaves the slot table as it was |
| Memory.AddressSpace.GetPage | src/vm/page.c:99-101 | palloc_get_page: the pool's next frame, zeroed when asked, or None when the pool is empty |
| Memory.AddressSpace.FreePage | src/vm/page.c:107 | palloc_free_page: the frame goes back to the pool, and nothing else changes |
| Memory.AddressSpace.InstallPage | src/userprog/process.c:766-775 | install_page: succeeds exactly when upage is unmapped, and only then maps it to kpage with the writability; frames and pool unchanged |
| Page.PageHash | src/vm/page.c:6-14 | s_page_hash: the hash of an entry is its table number |
| Page.PageLess | src/vm/page.c:16-25 | s_page_less: a orders before b exactly when a's key is below b's |
| Page.PageOrderIsKeyOrder | src/vm/page.c:6-25 | s_page_less is a strict order, and two entries are equivalent under it exactly when s_page_hash gives them the same key |
| Page.InsertEntry | src/userprog/process.c:686 | hash_insert: the key set gains e's key, every old entry stays, and e is stored only when its key was absent |
| Page.InsertAllKeys | src/userprog/process.c:653-693 | inserting a list yields exactly the old keys plus the list's keys, and every old entry is unchanged |
| Page.PageTable.constructor | src/vm/page.c:27-31 | s_page_init: an empty table keyed by table number |
| Page.PageTable.Lookup | src/vm/page.c:41-70 | s_page_lookup (and its duplicate in frame.c, lines 51-76): Some entry keyed by page exactly when the table holds one, None otherwise; it reads the table only |
| Page.PageTable.Insert | src/userprog/process.c:686 | hash_insert into the table: reports whether e went in; afterwards a lookup of e's key finds an entry |
| Page.FileRead | src/vm/page.c:104-105 | file_seek then file_read: at most n bytes, all n exactly when the file has them, taken from the file at the offset |
| Page.FillFrame | src/vm/page.c:111 | the read bytes at the frame's start, then zero_bytes zeros, then the rest of the frame unchanged |
| Page.PageImage | src/vm/page.c:103-111 | a stack page is all zeros; a file page holds its read_bytes file bytes, then zero_bytes zeros |
| Page.LoadSegmentFromFile | src/vm/page.c:93-124 | succeeds exactly when a frame is free, the read is complete and upage is unmapped; then upage maps to the pool's first frame, which holds the page image; otherwise no mapping is added, the pool is restored and no frame in use changes |
| Page.LoadSegmentStack | src/vm/page.c:138-162 | succeeds exactly when a frame is free and upage is unmapped; then upage maps to a zeroed frame; otherwise nothing in use changes |
| Page.SPageLoad | src/vm/page.c:73-91 | STACK goes to the stack loader and FILE to the file loader, with their outcomes; MMAP and SWAP return false and change nothing |
| Page.GrowStack | src/vm/page.c:164-194 | grow_stack: a writable STACK entry owned by tid with table_number = upage = page |
| Frame.FrameHash | src/vm/frame.c:4-12 | frame_hash is s_page_hash: the entry's table number |
| Frame.FrameLess | src/vm/frame.c:14-23 | frame_less is s_page_less: < on table numbers |
| Frame.FrameInit | src/vm/frame.c:25-29 | frame_init leaves an empty table keyed by table number |
| Frame.SPageDestroy | src/vm/frame.c:31-40 | s_page_destroy: exactly one entry leaves the table, and a lookup of its key finds nothing |
| Frame.SPageFree | src/vm/frame.c:42-48 | s_page_free: hash_destroy removes every entry, so no lookup finds anything |
| Vaddr.PgRoundDown | src/userprog/process.c:736 | pg_round_down: the page-aligned base of the page containing va |
| Vaddr.RoundUp | src/userprog/process.c:495 | ROUND_UP to PGSIZE: the least page multiple at or above x |
| Elf.DecodeEhdr | src/userprog/process.c:347-363 | the header read from the file keeps its 16 identification bytes |
| Elf.EhdrRoundTrip | src/userprog/process.c:347-363 | decoding the bytes of an Elf32_Ehdr gives the header back |
| Elf.DecodePhdr | src/userprog/process.c:368-378 | p_type is the first little-endian word of the program header |
| Elf.PhdrRoundTrip | src/userprog/process.c:368-378 | decoding the bytes of an Elf32_Phdr gives the program header back |
| Elf.Classify | src/userprog/process.c:469-512 | PT_LOAD is loaded; PT_DYNAMIC, PT_INTERP and PT_SHLIB, and only those, fail the load; every other type is ignored |
| Elf.Add32 | src/userprog/process.c:560-565 | uint32_t addition wraps exactly when the true sum reaches 2^32, and then the result is below the first operand |
| Elf.Sub32 | src/userprog/process.c:495-496 | uint32_t subtraction: the difference, plus 2^32 when negative |
| Elf.RoundUp32 | src/userprog/process.c:495 | ROUND_UP in uint32_t equals the unbounded ROUND_UP when nothing overflows |
| Elf.HeaderAccepted | src/userprog/process.c:444-450 | an accepted header has at most 1024 program headers of the Elf32_Phdr size, so the header table is at most 1024·32 bytes |
| Elf.ValidateSegment | src/userprog/process.c:537-578 | validate_segment, in 32-bit arithmetic, accepts exactly the segments that lie in user space above page 0, are non-empty, have a file offset at most the file's length and have matching page offsets (SegmentFits on unbounded integers); its wrap-around test closes the 32-bit gap |
| Elf.SplitSegment | src/userprog/process.c:485-504 | writability is the PF_W bit; file page and memory page are the offset and address rounded down; a segment with no file data reads nothing |
| Elf.SplitOfValidSegment | src/userprog/process.c:485-504 | for a validated segment, read_bytes + zero_bytes == ROUND_UP(page_offset + p_memsz), a page multiple, within user space; read_bytes ends exactly at the end of the file data |
| Process.PageRead | src/userprog/process.c:659-660 | page k reads at most a page, and the reads of the pages so far add up |
| Process.SegmentPages | src/userprog/process.c:653-693 | one entry per page: (read_bytes + zero_bytes)/PGSIZE entries |
| Process.PageEntryIs | src/userprog/process.c:670-682 | the entry built from turn k's loop variables is page k's entry |
| Process.CursorAtIs | src/userprog/process.c:653-693 | after k turns the loop variables are read_bytes - R, zero_bytes + R - k·PGSIZE, ofs + R and upage + k·PGSIZE, where R = min(read_bytes, k·PGSIZE); zero_bytes never underflows |
| Process.CursorLeft | src/userprog/process.c:653 | the loop condition holds exactly while fewer than (read_bytes+zero_bytes)/PGSIZE pages are done, and both counts stay non-negative |
| Process.CursorStep | src/userprog/process.c:659-692 | turn k reads PageRead(read_bytes, k) bytes at ofs + min(read_bytes, k·PGSIZE) into page upage + k·PGSIZE, then advances to turn k+1 |
| Process.SegmentPageAt | src/userprog/process.c:670-692 | entry k is a FILE entry for upage + k·PGSIZE, reading min(remaining, PGSIZE) bytes from ofs + min(read_bytes, k·PGSIZE), with the segment's writability |
| Process.SegmentReadsAll | src/userprog/process.c:679 | the entries' read_bytes add up to the segment's read_bytes |
| Process.SegmentKeys | src/userprog/process.c:672 | the entries' keys are upage + k·PGSIZE, pairwise distinct |
| Process.SegmentRegistered | src/userprog/process.c:686 | after the segment is registered, page k has an entry, and it is the segment's own when the page had none before |
| Process.LazyStep | src/userprog/process.c:686-692 | inserting page k's entry extends the table from the first k entries to the first k+1 |
| Process.LazyLoadSegment | src/userprog/process.c:639-699 | lazy_load_segment reports success, and the table is the old one with the segment's entries hash_inserted in order |
| Process.SegmentImage | src/userprog/process.c:611-622 | page k's image is a whole page whenever the file holds its data |
| Process.SegmentImageContents | src/userprog/process.c:611-622 | page k's image is the page_read_bytes file bytes just past the earlier pages' data, then zeros to the end of the page |
| Process.LoadedPage | src/userprog/process.c:616-622 | the image load_segment gives page k equals the page image of page k's entry |
| Process.LazyMatchesEager | src/userprog/process.c:616-622 | loading page k lazily from its entry fills the frame exactly as load_segment fills it |
| Process.SegmentMappedExtend | src/userprog/process.c:624-629 | mapping the next page to a frame taken from the pool keeps the pages mapped so far as they were |
| Process.SegmentMappedAll | src/userprog/process.c:603-636 | when all pages are done, each one is mapped with the segment's writability to a frame holding its image |
| Process.FileLoadUndisturbed | src/vm/page.c:113-121 | either outcome of the file loader keeps old mappings and frames in use, and only takes frames from the pool |
| Process.SegmentPageLoaded | src/userprog/process.c:611-629 | one page loaded from its entry: on success the first k+1 pages are mapped and the progress extends to k+1 pages; on failure the segment was not loadable; either way the address space is undisturbed |
| Process.LoadSegmentPage | src/userprog/process.c:608-629 | one turn of load_segment: on success page k is mapped to a frame holding its image and the progress extends; it fails only when the segment was not loadable; old mappings and frames in use stay |
| Process.SegmentLoadStops | src/userprog/process.c:611-629 | a turn that finds the pool empty, the read short or the page mapped shows the segment was not loadable from the start |
| Process.SegmentLoadStep | src/userprog/process.c:611-629 | a turn that takes a frame and maps an unmapped page extends the progress from k pages to k+1 |
| Process.SegmentLoadDone | src/userprog/process.c:603-636 | when all pages are done and the data read is the segment's, the segment was loadable |
| Process.LoadSegmentTurn | src/userprog/process.c:603-635 | one loop turn on load_segment's variables: on success they move to turn k+1 and page k is mapped; failure means the segment was not loadable; old mappings and frames in use stay |
| Process.LoadSegment | src/userprog/process.c:594-637 | succeeds exactly when the pool holds a frame for every page, the file holds the read_bytes bytes and no page of the segment was mapped; on success every page is mapped with its writability to a frame holding its file bytes then zeros; mappings present before stay and frames in use before are never written |
| Process.LazySetupStack | src/userprog/process.c:725-755 | corrected lazy_setup_stack: the table gains grow_stack's entry, esp = PHYS_BASE, and the page of the first push then has the stack entry |
| Process.LazySetupStackAsWritten | src/userprog/process.c:725-755 | as written: success and esp = PHYS_BASE with the table untouched, so the page of the first push has no entry |
| Process.FirstPushInStackPage | src/userprog/process.c:736 | the first byte pushed below PHYS_BASE lies in the page below PHYS_BASE |
| Process.ToOffT | src/userprog/process.c:457 | an Elf32_Off stored in the signed off_t turns negative exactly at 2^31 and above |
| Process.AcceptedSegmentFits | src/userprog/process.c:456-514 | every PT_LOAD header of an accepted executable is readable and describes a segment whose file offset is at most the file's length and which lies within user space above page 0 |
| Process.LoadHeader | src/userprog/process.c:460-512 | one turn of the header loop: goes on exactly when the header is readable and ignorable or a valid PT_LOAD; then its pages are registered; old entries always stay |
| Process.Load | src/userprog/process.c:410-529 | load succeeds exactly when the header check passes and every program header is acceptable; on success every PT_LOAD segment's pages are registered and, with the corrected lazy_setup_stack (see Findings), the stack page too; eip = e_entry and esp = PHYS_BASE; old entries are never replaced |
| Args.CStr | src/userprog/process.c:191-196 | a string is stored as its characters followed by one NUL |
| Args.WordAlign | src/userprog/process.c:200-202 | the padding is below 4 and makes total + padding a multiple of 4 |
| Args.ArgAddrAt | src/userprog/process.c:189-198 | argument i's recorded address is top minus the bytes of arguments i .. count-1 |
| Args.PointerWordAt | src/userprog/process.c:208-213 | argv[i] is stored as the little-endian word of address[i] at offset 4i |
| Args.StackImage | src/userprog/process.c:183-226 | the frame is 16 + 4·count + padding + strings bytes long, and the strings sit at its top |
| Args.SkipKeeps | src/userprog/process.c:203 | moving esp down over the padding without writing is a store of what memory already holds |
| Args.PushBytes | src/userprog/process.c:191-196 | pushing bytes below esp: the stack so far is extended downward by them, and esp drops by their length |
| Args.PushStrings | src/userprog/process.c:188-198 | the first loop stores the strings, last argument first, ending esp - total, and records each argument's address |
| Args.PushPointers | src/userprog/process.c:208-213 | the second loop stores argv[count-1] down to argv[0] below the stack so far |
| Args.PushArguments | src/userprog/process.c:188-213 | strings, padding kept from memory, the NULL sentinel and the argv[] pointers, at esp0 - StackSize + 12 |
| Args.PushFrame | src/userprog/process.c:215-225 | argv (the address of argv[0]), argc and return address 0 below the stack so far |
| Args.ArgumentPassing | src/userprog/process.c:182-226 | esp = esp0 - StackSize; memory is the old memory with StackImage stored at esp; everything outside the frame is unchanged |
| Args.FrameReturnAddress | src/userprog/process.c:223-225 | the word at esp is 0 |
| Args.FrameArgc | src/userprog/process.c:219-221 | the word at esp + 4 is count |
| Args.FrameArgv | src/userprog/process.c:215-217 | the word at esp + 8 is esp + 12, the address of argv[0] |
| Args.FrameSentinel | src/userprog/process.c:205-206 | argv[count] is the NULL sentinel |
| Args.StackAligned | src/userprog/process.c:200-203 | the frame is a whole number of words, so a word-aligned esp0 gives a word-aligned esp |
| Args.ArgvEntry | src/userprog/process.c:208-213 | the word at esp + 12 + 4i is argument i's address |
| Args.ArgStringAt | src/userprog/process.c:189-198 | argument i's characters and NUL lie in the frame at its recorded address |
| Args.ArgvPointsAtArgument | src/userprog/process.c:183-226 | following argv[i] read back from the frame leads to argument i's characters and NUL |

## Left out

- Printing, `sys_exit`, and process termination as such. A fatal path in `swap_in` and `swap_out` is an `exited` result with nothing changed.
- `is_vm_user_vaddr` (not part of this model): it is a boolean parameter of Swap.SwapTable.SwapIn and Swap.SwapTable.SwapOut.
- Freeing `swap_disk` and the list nodes in `swap_free`: the model only empties the list.
- Locks (`syscall_handler_lock`, the commented-out `load_lock`, `swap_lock`) and concurrency.
- Process.LazyLoadSegment: never fails, because a failing `malloc` of the entry is not modelled.
- Page.GrowStack: always returns an entry, because a failing `malloc` is not modelled.
- Memory.AddressSpace.InstallPage: succeeds whenever the page is unmapped, because an allocation failure inside `pagedir_set_page` is not modelled.
- Process.LazyLoadSegment: the file offset and page address are unbounded integers. The `off_t` and pointer wrap-around the C code could reach is not modelled; validated segments stay far below it.
- Process.Load: calls the corrected Process.LazySetupStack, so it registers the stack page; the code as written does not (see Findings).
- Process.Load: on failure it states only that existing entries stay. The pages registered by the headers before the failing one remain, as in the code.
- Process.Load: does not model `pagedir_create`, `process_activate`, `filesys_open`, `file_deny_write` or storing the running file in the thread. The executable is given as its bytes.
- Args.ArgumentPassing: requires the frame to fit between address 0 and esp0 and esp0 to be a 32-bit address, because memory is an array indexed by address. The source does not check either.
- Args.ArgumentPassing: requires at most 100 arguments, the size of the `address` array.
- Args.ArgumentPassing: requires strings without NUL, since that is what a C string is. The padding bytes keep what memory held, because the code skips them without writing.
- Splitting the command line into arguments (in `start_process`): not part of this model.
- `s_page_free` in `vm/page.c` returns without doing anything. It is a second definition of the same external function as the one in `frame.c`; the model follows the `frame.c` one, as Frame.SPageFree.
- The `default` branch of `s_page_load` for an unknown type tag: the tagged variant has no other tags.
- `load_segment_from_mmap` and `load_segment_from_swap` return false. They appear in Page.SPageLoad as the MMAP and SWAP cases.
- The eager `setup_stack`: it is not used by `load`, which calls `lazy_setup_stack`.
- The frame table, eviction, memory mapping and swap-backed page loading: the code declares them but does not implement them.
- `process_execute`, `start_process`, `process_wait`, `process_exit`, `process_activate` and the system-call layer: thread creation, synchronisation and kernel plumbing.
- Block-device I/O errors: `block_read` and `block_write` always transfer one whole sector.
- Swap.SwapTable.SwapIn: reads the slot numbered `index`, as the code does. Ids equal positions in the list, so this is the entry found.
- The fixed-point functions require their operands and results to fit in 32 bits. For IntToFp, AddFpFp, AddFpInt, SubFpFp, SubFpInt, MultFpInt and DivFpInt this rules out signed `int` overflow, which is undefined behaviour in C. For MultFpFp and DivFpFp the arithmetic is done in `int64_t` and cannot overflow; the requires rule out only the implementation-defined narrowing of the 64-bit result to `int` (it wraps modulo 2^32 with GCC on i386), and that wrapped value is not modelled.

## Findings

| source | as written | input that shows it | evidently intended | confidence | as-written member | corrected member |
|---|---|---|---|---|---|---|
| src/vm/swap.c:133-147 | the scan leaves `entry` on the last slot when no slot is free, so the `entry == NULL` test never fires; the page is written over the last slot, which is kept occupied, and its id is returned | two slots, both occupied: slot 1 is overwritten and 1 is returned | return -1 without writing when no slot is free | high; not executed | Swap.SwapOutSlotAsWritten, Swap.SwapOutAsWrittenOverwritesWhenFull | Swap.SwapTable.SwapOut |
| src/vm/swap.c:90-104 | when no slot has id `index`, `entry` is left on the last slot; if that slot is occupied the check passes, sectors index·spp onward are read (past every slot), and, if block_read returns for those sectors (devices/block.c is not part of this model), the last slot is freed | two occupied slots, index 5: sectors 5·spp .. 5·spp+spp-1 are requested, and slot 1 is freed if block_read returns | terminate the process when the index names no slot | high; not executed | Swap.SwapInAsWrittenOutOfRange | Swap.SwapTable.SwapIn |
| src/userprog/process.c:745-747 | the stack entry `grow_stack` builds is never inserted (the insertion is commented out), yet success is reported and esp set to PHYS_BASE | any load into a table without an entry for the page below PHYS_BASE: the first push faults on a page with no entry | insert the stack entry into the supplemental page table | high; not executed | Process.LazySetupStackAsWritten | Process.LazySetupStack, Process.Load |
