# The memory subsystem of tmos, verified

tmos is a small x86-64 kernel. This project models the part of it that hands out memory, from the
firmware's memory map up to the heap, and the formatted printer, and proves what that code keeps
and computes. `dafny verify dfyconfig.toml` checks everything.

| file | what it models |
|---|---|
| `Common.dfy` | page arithmetic, and the two readings of the source described below |
| `MemoryMap.dfy` | the boot memory map: an array of (start, type) entries in decreasing order, changed in place |
| `Multiboot.dfy`, `Tags.dfy`, `BootMap.dfy` | loading that map from the firmware's entries; finding tags in the firmware's table; reading the entries out of it |
| `Words.dfy`, `Bitmap.dfy`, `BitmapRuns.dfy` | words as bits; the frame allocator with its two levels of bitmaps; two runs that show where it falls short |
| `PageTable.dfy` | four-level page tables, the hardware's walk over them (section 4.5 of the Intel SDM, volume 3A), and the recursive self-map |
| `Vmm.dfy`, `VmmRuns.dfy` | the virtual memory manager; runs of its calls against a flat map of pages |
| `Heap.dfy`, `KernelHeap.dfy`, `HeapRuns.dfy`, `HeapAsWritten.dfy` | bin sizes and intrusive lists; `kmalloc` and `kfree`; runs of a heap client; runs in which the text as it stands loses what the client stored |
| `HeapBreak.dfy` | the heap's growth against the limit of `ksbrk` |
| `Printf.dfy`, `PrintfDirectives.dfy`, `PrintfC11.dfy` | `vsnprintf` (C11 section 7.21.6.12); what a directive means, from its text to what it prints; when its conversions are those of C11 section 7.21.6.1 |
| `Boot.dfy` | the layers put together as the boot code does, from the firmware's table to a run in the first address space |

The kernel's mutable objects are classes whose methods follow the source's steps: the map array is
an array, the bitmaps are arrays of 64-bit words, page tables are frames of 512 entries reached
only through virtual addresses and the self-map, the heap is a map from addresses to words, and the
print buffer is an array of characters. `PANIC` and failed `ASSERT`s are results (`NoSpace`,
`BadArgument`, `OutOfFrames`, `ShiftTooFar`, `Panic`, `false`, ...), and the contracts say exactly
when they occur or prove that they cannot.

## Where the source contradicts itself

Some lines do not do what their own comments and callers say. Those functions take a parameter
`Revision`: `AsWritten` is the text as it stands, `Documented` is the text with the line put right.
The intended law is proved for `Documented`; for `AsWritten` a lemma states exactly when the law
still holds or what happens instead.

| line | as written | documented | exact condition |
|---|---|---|---|
| kernel/mem/memory.c:51 | `_move_left` copies from `idx + amt` to `idx` | moves down to `idx - amt`, as the comment on line 47 and the call on line 98 have it | `MemoryMap.AsWrittenIsPointwiseMaxExactly`, `MemoryMap.MoveLeftLosesARegion` |
| kernel/mem/memory.c:106-116 | the branch that splits off an unaligned end falls through into the lines for the other case | it ends the turn | `MemoryMap.AsWrittenIsPointwiseMaxExactly`, `MemoryMap.FallThroughLosesARegion` |
| kernel/multiboot2.c:68-76 | an available entry that holds no whole page can round to an end below its start, and is inserted | it adds nothing | `Multiboot.EntrySafeExactly`, `Multiboot.TinyEntryBreaksOrder`; for whole loads `Multiboot.AsWrittenLoadExactly`, `Multiboot.AscendingLoadsSafely` |
| kernel/mem/bitmap.c:136, 143 | `1 << j` is an int shift | a word shift, as in include/tmos/ds/bitmap.h | `Bitmap.AsWrittenAllocExactly`; reached by `BitmapRuns.DrainingReachesBit31` |
| include/tmos/ds/list.h:26 | a new node's forward link goes back to `prev` | it goes to `next` | `Heap.AddFrontAsWrittenExactly`, `HeapAsWritten.SecondReleaseLosesTheFirst` |
| kernel/mem/heap.c:130 | splitting links the two halves although neither is in a list | no link | `KernelHeap.CutAsWrittenExactly`, `HeapAsWritten.SecondCutOverwrites`, `HeapAsWritten.SecondAllocationLosesAStore` |
| kernel/mem/heap.c:266, 268 | bin indices start one too high for the table on lines 159-226 | `- 2` | `Heap.AsWrittenIndexInTableExactly`, `Heap.AsWrittenFreeInTableExactly`, `Heap.AsWrittenBinsMeet` |

Where the code is followed and its limits are stated instead:

- The inner loop of `_find_idx` bounds the wrong index (kernel/mem/memory.c:16); the terminator stops it
  in time: `MemoryMap.Mmap.FindIdx`.
- `_alloc` and `_free` disagree about a base other than 0 (kernel/mem/bitmap.c:147, 160):
  `Bitmap.FreeFindsAllocatedFrameExactly`. Runs of the allocator and the virtual memory manager
  therefore start from a manager with base 0, as the boot path sets it up.
- `used_blk` is kept by `_mark_used` and `_mark_free` only (kernel/mem/bitmap.c:45, 60); it is the
  number of used frames after `_init` and not afterwards. `_alloc` compares it on line 117, so it
  can refuse although a whole word of its window is free: `Bitmap.RefusalMeansNoEmptyWordExactly`
  says when a refusal means what it should, `BitmapRuns.StaleCounterRefuses` gives a run that ends
  in a refusal without cause, and `Bitmap.FrameAllocator.Run` shows that clients who free only what
  they were given never see one.
- `_init` puts the bitmaps into the first region that is large enough, whatever its type
  (kernel/mem/bitmap.c:85-92): `Bitmap.BitmapsAvailableExactly`.
- The entry size in the memory map tag is used to count the entries and not to step through them
  (kernel/multiboot2.c:91-92): `BootMap.ReadBackExactly`.
- `vmm_unmap` gives no frame back, so unmapping a page that a page fault provided leaks its frame
  (kernel/arch/x86_64/mem/vmm.c:123-126, 374-376): `VmmRuns.NothingLeakedExactly` says when a run
  leaks nothing, `VmmRuns.UnmapLeaks` gives one that leaks, and `VmmRuns.Run` counts the frames.
- `ksbrk` compares a 64-bit sum with the end of the heap (kernel/arch/x86_64/mem/vmm.c:385):
  `Vmm.LimitChecked` says when that keeps the break inside the heap, `Vmm.LimitWraps` gives an
  increment that passes and leaves it.
- `VADDR_IS_VALID` looks at bits 51 to 63 (kernel/arch/x86_64/mem/vmm.c:63) where the comment above
  it promises all bits beyond 48: `Vmm.CheckMeansCanonicalExactly`, `Vmm.CheckPassesNonCanonical`.
- `vmm_free` of a page that was never accessed hands frame 0 back and panics
  (kernel/arch/x86_64/mem/vmm.c:123-126): `Vmm.AddressSpace.DoFree` says when.
- A page-table entry keeps address bits 12 to 51 while the memory map allows addresses of 56 bits
  (include/tmos/arch/x86_64/memory.h:21): `PageTable.EntryWord` says when an address survives.
- `vmm_translate` adds the offset to the frame bits of a huge entry as they are
  (kernel/arch/x86_64/mem/vmm.c:324, 334): `Vmm.TranslationIsHardwareExactly`.
- `vsnprintf` is not quite the one of C11; the model prints what the code prints. `%-5s` is not padded
  on the right and `%s` ignores the precision (kernel/vsprintf.c:241-262): `PrintfC11.TextIsC11Exactly`,
  `PrintfC11.TextDeviates`. Of numbers (kernel/vsprintf.c:28-134), `%#x` of 0 prints `0x0`, `%#o` prints a
  0 in front of digits that have one already, `%.0d` of 0 prints `0`, and the flag 0 pads with zeros
  although a precision is given: `PrintfC11.NumberIsC11Exactly` says exactly when a number comes out as
  C11 has it, and `PrintfC11.HashHexZero`, `HashOctalZero`, `ZeroPrecisionZero` and
  `ZeroFlagWithPrecision` are inputs.
- One line is not followed: the boot code tells the frame allocator that its list has as many regions
  as the whole map, although the list starts at a later entry (kernel/arch/x86_64/boot/kinit.c:159), so
  that entries behind the terminator are read: `Boot.TrailingRegions` says when this does no harm. Nor
  does it check that an available entry was found (lines 150-158). `Boot.Start` passes the regions up
  to the terminator, and gives up without an available one.

## Model

| member | source | states |
|---|---|---|
| MemoryMap.InsertIsPointwiseMax | kernel/mem/memory.c:80-140 | for every ordered map, page range and type, insertion raises the type of exactly the addresses of [start, end) to the maximum, and the map stays ordered with its terminator |
| MemoryMap.AsWrittenIsPointwiseMaxExactly | kernel/mem/memory.c:80-140 | the text as it stands computes that maximum if and only if a condition on the entries under the range holds, which can be read off the map before the call |
| MemoryMap.FallThroughLosesARegion | kernel/mem/memory.c:106-116 | a map and a range for which the fall-through takes the type of an address outside the range |
| MemoryMap.MoveLeftLosesARegion | kernel/mem/memory.c:97-100 | a map and a range for which the deletion gives addresses to the wrong entry |
| MemoryMap.InvertedRange | kernel/mem/memory.c:80-140 | a range with start > end changes no lookup, and the map stays ordered if and only if nothing was inserted |
| MemoryMap.SweepAsWrittenExact | kernel/mem/memory.c:90-105 | the sweep as written raises everything from start upwards if and only if every deletion it makes is harmless |
| MemoryMap.InsertBelowAsWrittenExact | kernel/mem/memory.c:90-140 | the same for the whole insertion below the entry that holds the end |
| MemoryMap.WholeMap | kernel/mem/memory.c:80-140 | replacing the lower part of a map is right for the map exactly when it is right below its bound |
| MemoryMap.SplitKeepsTypes | kernel/mem/memory.c:144-161 | splitting changes no lookup, keeps the order and leaves an entry that starts at the address |
| MemoryMap.InsertLength | kernel/mem/memory.c:80-140 | an insertion adds at most two entries |
| MemoryMap.Mmap.constructor | kernel/multiboot2.c:102-103 | the map that knows nothing |
| MemoryMap.Mmap.FindIdx | kernel/mem/memory.c:8-30 | finds the first entries at or below end and start; the panic is not reached |
| MemoryMap.Mmap.MoveRight | kernel/mem/memory.c:33-45 | moves the entries from idx up to the terminator by amt, or panics exactly when they do not fit |
| MemoryMap.Mmap.MoveLeft | kernel/mem/memory.c:47-54 | the documented move: the amt entries below start disappear |
| MemoryMap.Mmap.MoveLeftAsWritten | kernel/mem/memory.c:48-54 | the move as written: the amt entries from start on disappear |
| MemoryMap.Mmap.InsertRegion | kernel/mem/memory.c:80-140 | the array ends up as the insertion function says, in both readings; arguments are refused exactly when unaligned or too wide; it panics for want of space exactly when the first turn splits an entry of a full array, or when the entries of the result, or of the one entry cut, do not fit |
| MemoryMap.Mmap.SweepRegion | kernel/mem/memory.c:89-140 | the loop computes the function from the indices found, with the distance of the indices as its measure, and runs out of space exactly when that function's steps do |
| MemoryMap.Mmap.AlignedTurn | kernel/mem/memory.c:91-105 | one turn with the end aligned leaves the same result to be computed |
| MemoryMap.Mmap.MergeTurn | kernel/mem/memory.c:97-100 | so does the turn that deletes an entry |
| MemoryMap.Mmap.TopTurn | kernel/mem/memory.c:91-116 | so does the first turn |
| MemoryMap.Mmap.SplitTop | kernel/mem/memory.c:107-116 | the entries after the unaligned end was split off, in both readings |
| MemoryMap.Mmap.CutEntry | kernel/mem/memory.c:137-139 | cutting the only entry puts the range between its two parts |
| MemoryMap.Mmap.CutFront | kernel/mem/memory.c:131-136 | cutting the only entry where the range starts with it |
| MemoryMap.Mmap.Finish | kernel/mem/memory.c:118-140 | the lines behind the loop compute what was left, and say exactly when it does not fit |
| MemoryMap.Mmap.SplitAt | kernel/mem/memory.c:144-161 | the array ends up split; refused exactly for bad addresses, out of space exactly when full and no entry starts there |
| MemoryMap.RegionWord | include/tmos/memory.h:46-49 | on 64-bit words: start and type survive being packed exactly when the start is a page of 56 bits and the type has three bits |
| MemoryMap.RegionWordSet | include/tmos/memory.h:51-59 | setting the start keeps the type, and setting the type keeps the start |
| Common.PageAlignedExactly | include/tmos/arch/x86_64/system.h:13 | the mask test lets through the first bytes of the 2^44 pages below 2^56 and no other address |
| MemoryMap.InsertOnPages | kernel/mem/memory.c:80-140 | an insertion adds no start but those of its range: all entries stay on pages and below any limit |
| Multiboot.StrongestIsMax | kernel/multiboot2.c:63-77 | the strongest type is the least upper bound over the rounded entries that cover a page |
| Multiboot.OrderIndependent | kernel/multiboot2.c:63-77 | it does not depend on the order of the firmware's entries |
| Multiboot.LoadIsStrongest | kernel/multiboot2.c:63-77 | inserting all entries, whatever they are, gives every address the strongest type of the rounded entries that cover it, and an ordered map |
| Multiboot.AsWrittenLoadExactly | kernel/multiboot2.c:63-77 | the text as it stands loads right after every entry if and only if every insertion meets, at its turn, the condition under which it is harmless: the first that does not leaves a wrong map |
| Multiboot.EntrySafeExactly | kernel/multiboot2.c:68-76 | that condition is exact for a single entry, also for an available one whose rounded range is inverted |
| Multiboot.AscendingLoadsSafely | kernel/multiboot2.c:63-77 | a condition on the entries alone: from low addresses upwards and without overlap, the text as it stands loads right |
| Multiboot.TinyEntryBreaksOrder | kernel/multiboot2.c:68-76 | the available entry from 0x9fc00 to 0x9fe00 is rounded to an end below its start and leaves a map out of order |
| Multiboot.LoadOnPages | kernel/multiboot2.c:63-77 | the loaded map's entries start on pages, below any limit that the rounded entries keep |
| Multiboot.FillMmap | kernel/multiboot2.c:63-77 | the loop performs these insertions in both readings; as documented, when two array places per entry are left, it stops exactly if an entry passes 56 bits |
| Multiboot.LoadAllTypes | kernel/multiboot2.c:102-110 | the loaded map: the strongest type everywhere, raised on the pages of the multiboot2 table |
| Multiboot.LoadMap | kernel/multiboot2.c:102-110 | the method builds that map from the empty one, out of the entries; with two places left for each it succeeds exactly if neither an entry nor the table passes 56 bits |
| Multiboot.AvailableExactly | kernel/multiboot2.c:62-111 | a page ends as available if and only if one entry of the firmware's type 1 holds all of it and no byte of it lies in an entry of another type or in the table |
| Multiboot.PageTypesExactly | kernel/multiboot2.c:47-77 | the type of every page of the loaded map, from the numbers of the firmware: reserved if a part of it is in an entry of type 2, 0 or above 4, else ACPI NVS for type 4, else ACPI reclaimable for type 3, else the table's, else available if one entry of type 1 holds all of it, else unknown |
| Multiboot.StrongestAvailExactly | kernel/multiboot2.c:66-76 | the same before the table is inserted |
| Multiboot.RoundedCover | kernel/multiboot2.c:68-74 | entries of type 1 round inwards to the pages they hold, all others outwards to the pages they touch |
| Multiboot.RoundedModulo | kernel/multiboot2.c:68-74 | every 64-bit entry, those whose sums wrap around included, is rounded to the next or last page boundary on the circle of 2^64 addresses |
| Tags.PositionIsFirst | kernel/multiboot2.c:31-44 | the position searched for is that of the first tag of the type, and there is none exactly when no tag has it |
| Tags.TableIsAccepted | kernel/multiboot2.c:11-28 | every well-formed table passes the loader's checks |
| Tags.Skipped | kernel/multiboot2.c:41 | stepping by the size rounded up to eight bytes reaches the next tag |
| Tags.PaddedIsLeast | kernel/multiboot2.c:41 | that size is the least multiple of eight bytes that holds the tag |
| Tags.Firmware.Load | kernel/multiboot2.c:11-28 | accepts the first valid table and only that, and reports which |
| Tags.Firmware.GetTag | kernel/multiboot2.c:31-44 | finds the first tag of the type in any well-formed table, and NULL without a table or tag |
| BootMap.LoadFromTable | kernel/multiboot2.c:80-111 | from any well-formed table: without a memory map tag it panics with that message, and only then; with one, success means the boot memory map of the tag's entries and the table, and with two array places for each it succeeds exactly if none of them passes 56 bits |
| BootMap.ReadEntries | kernel/multiboot2.c:91-92 | the structs behind the tag's header are the firmware's entries, as many as the tag's size says |
| BootMap.TagFound | kernel/multiboot2.c:88-92 | where the tag's words lie in the table, and that they are the entries |
| BootMap.StructsFit | kernel/multiboot2.c:92 | with 24-byte entries, struct i lies over entry i and has its start, length and type |
| BootMap.ReadBackExactly | kernel/multiboot2.c:91-92 | every list of entries is read back if and only if the tag's entry size is 24 |
| Words.ExtremeWords | include/tmos/ds/bitmap.h:25-37 | the largest word is the one with every bit set, zero the one with none |
| Words.SetTests | include/tmos/ds/bitmap.h:25-37 | setting or clearing a bit changes the answer for that bit only |
| Words.WordMeaning | kernel/mem/bitmap.c:22-31 | a word of a bitmap is full, or zero, exactly when its 64 bits are |
| Bitmap.SetKeepsSandwich | kernel/mem/bitmap.c:19-25 | `_set` keeps the relation of the two levels (full words summarised as set, empty words as clear, padding set) and adds exactly one used frame |
| Bitmap.UnsetKeepsSandwich | kernel/mem/bitmap.c:28-34 | `_unset` keeps it and removes exactly one used frame |
| Bitmap.ClearBitHasFrame | kernel/mem/bitmap.c:134-150 | behind every clear summary bit lies a word with a clear bit, and it belongs to a managed frame: the panic in `_alloc` is unreachable |
| Bitmap.GroupHasFrame | kernel/mem/bitmap.c:135-146 | a summary word that is not full leads to a free managed frame |
| Bitmap.SearchFinds | kernel/mem/bitmap.c:130-148 | whenever the search gets past the summary it finds a free managed frame of the window |
| Bitmap.SearchFails | kernel/mem/bitmap.c:130-152 | when it does not, no word of the groups searched is entirely free |
| Bitmap.SearchTakesWay | kernel/mem/bitmap.c:130-146 | the search takes the only way there is: the lowest summary word that is not full among those whose 4096 frames all lie between the limits, its lowest clear bit, the lowest clear bit of the word behind it; it finds nothing exactly when all those summary words are full |
| Bitmap.RefusalMeansNoEmptyWordExactly | kernel/mem/bitmap.c:115-153 | a refusal means that in the groups of 4096 frames between the limits no word is entirely free exactly unless the counter on line 117 says full while there is such a word |
| Bitmap.RoundedInwards | kernel/mem/bitmap.c:123-127 | two roundings of both limits never leave the window |
| Bitmap.SearchedGroupsExactly | kernel/mem/bitmap.c:121-127 | and they leave out nothing: a group of 4096 frames is searched if and only if all of it lies between the page numbers of the two limits |
| Bitmap.WindowPassesFreeChecks | kernel/mem/bitmap.c:156-161 | a frame of the window passes the range checks of `_free` exactly when the window starts on a page or the frame is not its first |
| Bitmap.AsWrittenAllocExactly | kernel/mem/bitmap.c:115-153 | the int shift changes the answer exactly when the counter lets the search begin, a summary word of a group between the limits is not full, and the lowest clear bit of the first such word or of the word it leads to is above 30 |
| BitmapRuns.DrainingReachesBit31 | kernel/mem/bitmap.c:134-146 | whenever the search is led to an entirely free word, the code as it stands hands out its first 31 frames in a row and the next allocation shifts an int by 31, where a word shift would have found frame 31 |
| BitmapRuns.InitLeadsToEmptyWord | kernel/mem/bitmap.c:67-112 | `_init` on 128 frames, the lower half reserved, leaves such a state |
| BitmapRuns.StaleCounterRefuses | kernel/mem/bitmap.c:117-119 | when all of 64 frames are in use after `_init` and all are freed, the next allocation is refused with every frame free |
| BitmapRuns.InitFillsMemory | kernel/mem/bitmap.c:67-112 | `_init` on 64 frames, of which only the one that must hold the bitmaps is available, leaves such a state |
| BitmapRuns.FreeingEmptiesWord | kernel/mem/bitmap.c:156-163 | the bitmaps after each of these frees |
| Bitmap.FreeFindsAllocatedFrameExactly | kernel/mem/bitmap.c:147-162 | `_free` looks up the frame that `_alloc` returned if and only if the base is 0 |
| Bitmap.AvailableIsLookup | kernel/mem/bitmap.c:105-109 | on an ordered map the freed addresses are those whose lookup says available |
| Bitmap.FreeAfterInit | kernel/mem/bitmap.c:104-111 | frames outside the available regions together with those of the bitmaps are the ones used after `_init` |
| Bitmap.FrameAllocator.constructor | kernel/mem/bitmap.c:16 | the manager before `_init` |
| Bitmap.FrameAllocator.SetFrame | kernel/mem/bitmap.c:19-25 | both arrays as the set and summary functions say |
| Bitmap.FrameAllocator.UnsetFrame | kernel/mem/bitmap.c:28-34 | both arrays as the clear and summary functions say |
| Bitmap.FrameAllocator.MarkUsed | kernel/mem/bitmap.c:37-49 | adds exactly the frames of the range and keeps `used_blk` equal to the number of used frames |
| Bitmap.FrameAllocator.MarkFree | kernel/mem/bitmap.c:52-64 | removes exactly the frames of the range and keeps the count |
| Bitmap.FrameAllocator.MarkAvailable | kernel/mem/bitmap.c:105-109 | the loop frees exactly the frames of available regions |
| Bitmap.FrameAllocator.Init | kernel/mem/bitmap.c:67-112 | both arrays have the least number of 64-bit words for a bit per frame and a bit per word; a managed frame is free afterwards if and only if it is available and does not begin among the 8 bytes per word of both arrays, which lie at the start of the lowest region that has room for them; every frame that holds one of these bytes is in use; the counter is right; it fails exactly when no region has room for that many bytes |
| Bitmap.BitmapsAvailableExactly | kernel/mem/bitmap.c:85-103 | the memory that `_init` overwrites with the bitmaps is available memory if and only if the region chosen is of type available |
| Bitmap.BytesDecide | kernel/mem/bitmap.c:77-111 | rounding the bytes of the bitmaps up to pages changes neither which regions have room for them nor which frames are in use |
| Bitmap.OverlapUsed | kernel/mem/bitmap.c:110-111 | a frame that holds any byte of the bitmaps is in use |
| Bitmap.FrameAllocator.Reset | kernel/mem/bitmap.c:71-103 | fresh full bitmaps of the computed sizes |
| Bitmap.FrameAllocator.FindGroup | kernel/mem/bitmap.c:130-134 | the first summary word of the window that is not full |
| Bitmap.FrameAllocator.PickFrame | kernel/mem/bitmap.c:135-146 | the first clear bits of both levels, as far as the shifts are defined |
| Bitmap.FrameAllocator.FindFrame | kernel/mem/bitmap.c:115-146 | the answer is a free managed frame inside the window |
| Bitmap.FrameAllocator.Alloc | kernel/mem/bitmap.c:115-153 | hands out one frame that was neither used nor outstanding and sets it in both bitmaps, or changes nothing; the answer is the search's, and a refusal means that in no group of 4096 frames between the limits a word is entirely free, as long as the counter does not say full or is still right |
| Bitmap.FrameAllocator.Free | kernel/mem/bitmap.c:156-163 | succeeds exactly for aligned addresses of used frames in the window, and then clears exactly that frame in both bitmaps |
| Bitmap.FrameAllocator.Run | kernel/mem/bitmap.c:115-163 | over any run of allocations and frees no outstanding frame is handed out again, the outstanding set is what the answers say, and answers and bitmaps are those of the replay on values; every refusal comes at a moment when in no group of 4096 frames between the limits a word is entirely free, if memory was not full after `_init` or the client frees only frames it holds |
| PageTable.IndexMacros | kernel/arch/x86_64/mem/vmm.c:55-59 | the four index macros read nine bits of the address each |
| PageTable.EntryWord | kernel/arch/x86_64/mem/vmm.c:37-54 | on 64-bit words: an entry gives back the address stored in it exactly when the address is below 2^52, and its flags with it |
| PageTable.PtChildBits | kernel/arch/x86_64/mem/vmm.c:65-67 | the or-ed form of the child address on 64-bit words is a sum of disjoint parts |
| PageTable.PtChildPage | kernel/arch/x86_64/mem/vmm.c:65-67 | it drops the highest table index of the parent's address and appends the new one |
| PageTable.SelfMapReachesTables | kernel/arch/x86_64/mem/vmm.c:19 | with slot 510 pointing to the root, the hardware's walk of the chained child address of every path ends in exactly the table at that path |
| PageTable.SelfMapReachesFrame | kernel/arch/x86_64/mem/vmm.c:94-100 | also for a table just linked, before it is cleared |
| PageTable.WalkStep | kernel/arch/x86_64/mem/vmm.c:76-81 | at a live table the hardware's next step is to the live child or ends in the entry |
| PageTable.WalkIsDeepest | kernel/arch/x86_64/mem/vmm.c:304-344 | the hardware's walk ends in the entry of the lowest live table on the path |
| PageTable.PathClosed | kernel/arch/x86_64/mem/vmm.c:104-119 | live tables on a page's path are closed upwards |
| PageTable.LiveEntry | kernel/arch/x86_64/mem/vmm.c:95-96 | the entry that points to a live table is the one `_pt_create` writes: its frame, present and writable and no other flag |
| PageTable.WritableIsLeaf | kernel/arch/x86_64/mem/vmm.c:95-96 | so the tables never take away the right to write: the hardware, which asks for the writable bit in every entry of the walk (section 4.6 of the SDM), lets a page be written if and only if its own entry has it |
| PageTable.AddKeepsLinked | kernel/arch/x86_64/mem/vmm.c:94-100 | adding an empty table keeps the tree: each live table reachable by one path, in its own frame |
| PageTable.AddKeepsView | kernel/arch/x86_64/mem/vmm.c:94-100 | and no page is seen differently |
| PageTable.SetLeafKeepsLinked | kernel/arch/x86_64/mem/vmm.c:127 | writing a leaf keeps the tree |
| PageTable.SetLeafView | kernel/arch/x86_64/mem/vmm.c:127 | and changes the view of that one page |
| PageTable.RemoveKeepsLinked | kernel/arch/x86_64/mem/vmm.c:141-144 | unlinking an empty table keeps the tree |
| PageTable.RemoveKeepsView | kernel/arch/x86_64/mem/vmm.c:141-144 | and no page is seen differently |
| PageTable.RemoveKeepsTidyBut | kernel/arch/x86_64/mem/vmm.c:129-173 | afterwards at most the next table up the path is empty |
| PageTable.LiveHasPage | kernel/arch/x86_64/mem/vmm.c:129-173 | when no table but the root is empty, below every live table lies a page in use |
| PageTable.OccupiedIsLive | kernel/arch/x86_64/mem/vmm.c:84-101 | a page in use has all tables of its path |
| PageTable.SameViewSameTables | kernel/arch/x86_64/mem/vmm.c:104-176 | two such sets of tables that show every page alike consist of the same tables |
| Vmm.TranslationIsHardwareExactly | kernel/arch/x86_64/mem/vmm.c:304-344 | the code's translation agrees with the hardware exactly when a huge frame is aligned to its size |
| Vmm.MappedTranslates | kernel/arch/x86_64/mem/vmm.c:347-371 | after `vmm_map_to` every byte of the range translates to its place in the given frames, and did not translate before |
| Vmm.OthersTranslateAsBefore | kernel/arch/x86_64/mem/vmm.c:347-371 | every other address translates as before, huge pages included |
| Vmm.MappedToLeaf | kernel/arch/x86_64/mem/vmm.c:365-367 | after `vmm_map_to` page i of the range has exactly frame + i and the given flags and present, and the hardware lets it be written if and only if WRITABLE was among them |
| Vmm.MappedLeaf | kernel/arch/x86_64/mem/vmm.c:290-292 | after `vmm_map` every page of the range has frame 0, the given flags and to-be-allocated but not present, and an access faults |
| Vmm.FaultedWritable | kernel/arch/x86_64/mem/vmm.c:490-497 | a page provided by a fault can be written if and only if it was mapped as writable |
| Vmm.TableAddrsCanonical | kernel/arch/x86_64/mem/vmm.c:65-67 | every address at which the code edits a table is canonical |
| Vmm.HeapRange | include/tmos/arch/x86_64/system.h:57-59 | the kernel heap's addresses are valid and clear of the self-map |
| Vmm.CheckMeansCanonicalExactly | kernel/arch/x86_64/mem/vmm.c:61-63 | an address is canonical if and only if it passes the check and its bits 47 to 50 repeat bit 51; the assertions beside it ask for a page boundary other than 0 |
| Vmm.CheckPassesNonCanonical | kernel/arch/x86_64/mem/vmm.c:61-63 | an address that passes the check and is not canonical |
| Vmm.LimitChecked | kernel/arch/x86_64/mem/vmm.c:385 | the check keeps the break inside the heap if and only if the sum stays below 2^64 |
| Vmm.LimitWraps | kernel/arch/x86_64/mem/vmm.c:385 | an increment that passes the check and takes the break past the heap |
| Vmm.AddressSpace.constructor | kernel/arch/x86_64/mem/vmm.c:179-194 | a cleared PML4 with its self-map is a sound address space without pages, and all outstanding frames but its own are somebody else's |
| Vmm.AddressSpace.PtChildOf | kernel/arch/x86_64/mem/vmm.c:76-81 | the child's address exactly when the child is a live table |
| Vmm.AddressSpace.TakeFrame | kernel/arch/x86_64/mem/vmm.c:94-95 | a frame that was not outstanding; without one, the allocator refuses at this moment and in no group of 4096 frames between its limits a word is entirely free, or its shift is undefined |
| Vmm.AddressSpace.PtCreate | kernel/arch/x86_64/mem/vmm.c:84-101 | the child on the path, created if missing, with no page seen differently; fails only at a huge page or because the allocator does |
| Vmm.AddressSpace.CreateTable | kernel/arch/x86_64/mem/vmm.c:93-100 | the creation itself: a frame of its own, linked as present and writable and cleared through the self-map; fails only because the allocator does |
| Vmm.AddressSpace.CreatePath | kernel/arch/x86_64/mem/vmm.c:285-287 | the three tables below the root |
| Vmm.AddressSpace.MapPage | kernel/arch/x86_64/mem/vmm.c:284-295 | one page changes from unused to the requested leaf, nothing else |
| Vmm.AddressSpace.MapRange | kernel/arch/x86_64/mem/vmm.c:284-295 | the loop maps exactly the n pages |
| Vmm.AddressSpace.VmmMap | kernel/arch/x86_64/mem/vmm.c:273-296 | exactly the n pages wait for their first access: frame 0, the requested flags and to-be-allocated, not present; fails for a bad address, a page in use, a huge page, or because the allocator refuses at that moment |
| Vmm.AddressSpace.VmmMapTo | kernel/arch/x86_64/mem/vmm.c:347-371 | exactly the n pages map to consecutive frames: page i has frame paddr / 4096 + i and the requested flags and present, and can be written if and only if WRITABLE was requested; fails as `vmm_map` does |
| Vmm.AddressSpace.IsEmpty | kernel/arch/x86_64/mem/vmm.c:130-136 | finds out whether a table has no entry in use |
| Vmm.AddressSpace.Prune | kernel/arch/x86_64/mem/vmm.c:137-151 | a table goes back to the allocator exactly when it became empty |
| Vmm.AddressSpace.PruneAll | kernel/arch/x86_64/mem/vmm.c:129-173 | afterwards no table but the root is empty and no page is seen differently |
| Vmm.AddressSpace.FindLeaf | kernel/arch/x86_64/mem/vmm.c:117-122 | finds the page's tables exactly when it has a leaf |
| Vmm.AddressSpace.DropFrame | kernel/arch/x86_64/mem/vmm.c:123-126 | whose frame it is that a page gives up: `vmm_free` returns it, be it provided or somebody else's, and panics exactly at a page that waits and at a frame that is free; `vmm_unmap` leaves a provided one to nobody |
| Vmm.AddressSpace.FreePage | kernel/arch/x86_64/mem/vmm.c:116-175 | one page becomes unused; says exactly when it cannot |
| Vmm.AddressSpace.FreeRange | kernel/arch/x86_64/mem/vmm.c:116-175 | the loop over the range; unmapping leaks exactly the frames of its provided pages, freeing takes exactly the given frames from those who held them |
| Vmm.AddressSpace.DoFree | kernel/arch/x86_64/mem/vmm.c:104-176 | removes exactly the n pages and keeps the tables tidy and the frames owned; succeeds if and only if every page is mapped and, for `vmm_free`, was accessed and shows no frame that is free or was freed a page before; `vmm_unmap` leaks exactly the frames of the range's provided pages, `vmm_free` returns all, those of given pages among them |
| Vmm.AddressSpace.VmmUnmap | kernel/arch/x86_64/mem/vmm.c:374-376 | the same without returning the pages' frames: exactly those of provided pages are leaked |
| Vmm.AddressSpace.VmmFree | kernel/arch/x86_64/mem/vmm.c:299-301 | the same with their frames returned: those of provided pages, and those that `vmm_map_to` was given |
| Vmm.GivenStep | kernel/arch/x86_64/mem/vmm.c:117-128 | whether the given frames of a range can be returned is decided page by page |
| Vmm.AddressSpace.FrameKinds | kernel/arch/x86_64/mem/vmm.c:123-126 | a frame that is neither a table nor behind a provided page was handed out exactly if it is somebody else's |
| Vmm.AddressSpace.Translate | kernel/arch/x86_64/mem/vmm.c:304-344 | computes the translation of the hardware's walk |
| Vmm.AddressSpace.PageFault | kernel/arch/x86_64/mem/vmm.c:466-501 | provides a waiting page with a frame that was free, keeping its flags, so that it can be written if and only if it was mapped as writable; crashes exactly for execution, reserved bits and pages nobody asked for, and fails otherwise only because the allocator does |
| Vmm.AddressSpace.BackLeaf | kernel/arch/x86_64/mem/vmm.c:490-497 | the entry before and after |
| Vmm.AddressSpace.Ksbrk | kernel/arch/x86_64/mem/vmm.c:380-396 | moves the break by the increment and maps, writable on first access, or frees exactly the pages between; refuses exactly unaligned increments and those whose wrapped sum exceeds the end of the heap, and says exactly when the check is passed although the break would leave the heap |
| VmmRuns.MapThenUnmap | kernel/arch/x86_64/mem/vmm.c:347-376 | mapping and unmapping the same pages restores every page's view, every table in its frame and the set of allocated frames, across all table boundaries; the mapping fails only for a bad argument, a page in use, a huge page, or because the allocator refuses at that moment |
| VmmRuns.MapAndTouch | kernel/arch/x86_64/mem/vmm.c:273-296 | after mapping on demand and accessing pages in any order, each accessed page is present on a frame of its own that was free, with the requested flags, no page outside changed and no frame was leaked; the accesses fail only because the allocator does |
| VmmRuns.Perform | kernel/arch/x86_64/mem/vmm.c:273-396 | one call does to the page tables what it does to a flat map of pages with the frames the client holds; frames of others stay theirs, and only those of provided pages that are unmapped are lost; it fails exactly when that map says so, or because the allocator does |
| VmmRuns.PerformCounted | kernel/arch/x86_64/mem/vmm.c:104-176 | the frames one call leaks are as many as the provided pages of the flat map that it unmaps |
| VmmRuns.FramesCounted | kernel/arch/x86_64/mem/vmm.c:116-127 | the provided pages of a range have a frame each, all different and nobody else's |
| VmmRuns.NothingLeakedExactly | kernel/arch/x86_64/mem/vmm.c:374-376 | a run leaks nothing if and only if no `vmm_unmap` in it covers a page that is provided at that moment |
| VmmRuns.UnmapLeaks | kernel/arch/x86_64/mem/vmm.c:123-126 | mapping a page on demand, accessing it and unmapping it is a run that nothing stops, and it leaks one frame |
| VmmRuns.Run | kernel/arch/x86_64/mem/vmm.c:104-396 | after any run of calls the four-level tables show exactly the flat map of the same calls, no call was one that must fail, the tables are one tidy tree, and the allocated frames are the tables, the frames of the provided pages, the client's own that it did not free, and those of others, none in two roles; those of others are the ones of the beginning and exactly as many more as the flat map says were leaked, so that nothing was added if and only if nothing leaked; a run that stops early stops at a call that must fail or because the allocator has no frame at that moment: in no group of 4096 frames between its limits a word is entirely free, or its shift is undefined |
| VmmRuns.Live | kernel/arch/x86_64/mem/vmm.c:179-194 | the same from the creation of an address space on: the frames in use are exactly those of others, the client's remaining own, the live tables and the provided pages' frames if and only if the run leaked nothing |
| VmmRuns.ShownTranslation | kernel/arch/x86_64/mem/vmm.c:304-344 | what translation answers in terms of the flat map |
| VmmRuns.ShownWritable | kernel/arch/x86_64/mem/vmm.c:95-96 | what the hardware lets be written, in terms of the flat map: exactly the pages with a frame whose flags have WRITABLE |
| VmmRuns.AfterMap | kernel/arch/x86_64/mem/vmm.c:273-296 | what `vmm_map` does to each page of the flat map: those of the range wait, with the given flags and to-be-allocated and without present |
| VmmRuns.AfterMapTo | kernel/arch/x86_64/mem/vmm.c:347-371 | `vmm_map_to`: those of the range show paddr / 4096 and the frames behind it in a row, with the given flags and present |
| VmmRuns.AfterTouch | kernel/arch/x86_64/mem/vmm.c:482-497 | an access: a waiting page is provided, with its flags, present and no longer to be allocated |
| VmmRuns.AfterUnmap | kernel/arch/x86_64/mem/vmm.c:374-376 | `vmm_unmap`: those of the range are gone, and the client keeps its frames |
| VmmRuns.AfterFree | kernel/arch/x86_64/mem/vmm.c:299-301 | `vmm_free`: those of the range are gone, and with them exactly the client's frames that they showed |
| VmmRuns.AfterSbrk | kernel/arch/x86_64/mem/vmm.c:380-396 | `ksbrk`: the pages above the break wait, writable, or the last pages are freed, and the break moves by the increment |
| VmmRuns.ShowsAfterMap | kernel/arch/x86_64/mem/vmm.c:273-371 | mapping a range and adding it to the flat map agree |
| VmmRuns.ShowsAfterFree | kernel/arch/x86_64/mem/vmm.c:104-176 | freeing a range and dropping it from the flat map agree |
| VmmRuns.MapPanics | kernel/arch/x86_64/mem/vmm.c:285-290 | a range is mapped only where the flat map is empty, and fails for a reason other than frames only where it is not |
| VmmRuns.FreePanics | kernel/arch/x86_64/mem/vmm.c:117-125 | a range has the pages that freeing needs if and only if the flat map has all its pages and, for `vmm_free`, none of them waits |
| VmmRuns.OwnGivenBack | kernel/arch/x86_64/mem/vmm.c:123-126 | given frames of the client's own can be freed unless two pages of the range show the same |
| VmmRuns.SameGiven | kernel/arch/x86_64/mem/vmm.c:117-128 | the given pages and frames of a range are those of the flat map |
| VmmRuns.ShowsAfterFault | kernel/arch/x86_64/mem/vmm.c:482-497 | a served page fault and an access in the flat map agree |
| Heap.GetSizeIsLeast | kernel/mem/heap.c:235-260 | `_get_size` returns the least bin size that holds the request and is no less than 24 |
| Heap.BinIndexInverts | kernel/mem/heap.c:263-290 | the index of a bin's size is the bin, and as written the next bin |
| Heap.AsWrittenIndexInTableExactly | kernel/mem/heap.c:263-290 | as written the index leaves the table exactly for requests above 3584 bytes |
| Heap.AsWrittenFreeInTableExactly | kernel/mem/heap.c:368 | as written freeing a fresh block leaves the table exactly for requests above 3328 bytes |
| Heap.AsWrittenBinsMeet | kernel/mem/heap.c:321-325 | as written the two wrong indices agree, so a chunk found in a bin is large enough |
| Heap.FlagsKeepSize | kernel/mem/heap.c:40-72 | setting and clearing header flags keeps the size and the other flags |
| Heap.AddFrontRing | include/tmos/ds/list.h:24-34 | adding in front of a circular list gives the list with the node first, in both directions |
| Heap.DeleteFrontRing | include/tmos/ds/list.h:42-51 | deleting the first node gives the rest |
| Heap.AddFrontAsWrittenExactly | include/tmos/ds/list.h:24-34 | as written the result is that list if and only if the list was empty; otherwise only the new node can be reached |
| KernelHeap.Inside | kernel/mem/heap.c:115-118 | a chunk lies inside the heap and is followed by a chunk |
| KernelHeap.Disjoint | kernel/mem/heap.c:115-118 | two chunks never overlap |
| KernelHeap.WalkVisitsChunks | kernel/mem/heap.c:85-87 | following the headers from the heap start visits every chunk once, in order, and lands on the break |
| KernelHeap.FreeKeepsInv | kernel/mem/heap.c:368-373 | freeing a used chunk hangs it in front of its bin's list with its footer set, keeps the heap sound and every other block's contents |
| KernelHeap.TakeKeepsInv | kernel/mem/heap.c:323-331 | taking the first chunk of a bin marks it used, keeps the heap sound and every other block's contents |
| KernelHeap.CutFits | kernel/mem/heap.c:333-342 | the last chunk always holds the cut: no size difference wraps around and one page of growth is enough |
| KernelHeap.CutKeepsInv | kernel/mem/heap.c:122-133 | cutting a block from the last chunk adds exactly that block |
| KernelHeap.StoreKeepsInv | kernel/mem/heap.c:30-33 | a store into a block in use concerns that block alone |
| KernelHeap.CutAsWrittenExactly | kernel/mem/heap.c:130 | as written a cut leaves all words below the last chunk alone if and only if that chunk's forward link points at no lower chunk or at one already holding the value |
| KernelHeap.CutAsWrittenLinksBack | kernel/mem/heap.c:130 | and it always leaves that link on the block just handed out |
| HeapAsWritten.SecondCutOverwrites | kernel/mem/heap.c:122-133 | as written, of two cuts in a row the second stores an address into the first word of the block that the first one handed out, whatever its owner put there |
| HeapAsWritten.CutAsWrittenHeaders | kernel/mem/heap.c:122-133 | otherwise a cut as written does to the chunks what it should |
| HeapAsWritten.SecondAllocationLosesAStore | kernel/mem/heap.c:303-343 | from `heap_init`: a client allocates a block, stores a value in it and allocates another block of any size; its store is lost |
| HeapAsWritten.SecondReleaseLosesTheFirst | kernel/mem/heap.c:313-374 | from `heap_init`: two blocks of one size are allocated and freed; the second is alone in its bin, and the first, although free, is in none |
| KernelHeap.EmptyListed | include/tmos/ds/list.h:54-56 | the emptiness test is right |
| KernelHeap.KernelHeap.constructor | kernel/mem/heap.c:303-310 | over any memory contents the heap starts as one free chunk of two pages less a header, with empty bins, and is sound |
| KernelHeap.InitialInv | kernel/mem/heap.c:303-310 | every memory of that form is a sound heap |
| KernelHeap.KernelHeap.Kmalloc | kernel/mem/heap.c:313-343 | the block is new, as large as the least bin size for the request, taken from its bin or the front of the last chunk, and every other block keeps its contents; NULL exactly for 0, a panic exactly above 3840 bytes or when the bin is empty and the last chunk can no longer grow; the heap afterwards is the one a function of the heap before gives |
| KernelHeap.KernelHeap.TakeFirst | kernel/mem/heap.c:323-332 | the block from the bin |
| KernelHeap.KernelHeap.CutLast | kernel/mem/heap.c:333-342 | the block from the last chunk |
| KernelHeap.KernelHeap.Kfree | kernel/mem/heap.c:359-374 | succeeds exactly for blocks in use, files the chunk in the bin of its size, and every other block keeps its contents |
| KernelHeap.RangeCheck | kernel/mem/heap.c:363 | every block in use passes the range assertion |
| HeapBreak.GrowsWhereKsbrkPasses | kernel/mem/heap.c:333-338 | `kmalloc` takes another page exactly where the assertions of `ksbrk` let one pass, and panics exactly where it needs one and they do not |
| HeapRuns.HeldApart | kernel/mem/heap.c:313-374 | blocks held together share no byte, are aligned and lie inside the heap |
| HeapRuns.GotTracked | kernel/mem/heap.c:313-343 | an allocation adds a block and loses nothing that was stored |
| HeapRuns.GaveTracked | kernel/mem/heap.c:359-374 | a release removes a block and loses nothing stored elsewhere |
| HeapRuns.Perform | kernel/mem/heap.c:313-374 | one request of a client and the event it causes; a size in range is refused if and only if at this moment its bin is empty and the last chunk can no longer grow |
| HeapRuns.Run | kernel/mem/heap.c:303-374 | any run of a client over a heap without blocks: every request is answered in turn, and refused exactly when the heap is exhausted for it at that moment; the client's blocks are exactly the blocks in use, each as large as asked for, every block still holds what the client last stored in it, and heap and answers are those of the replay on values |
| HeapRuns.Live | kernel/mem/heap.c:303-374 | the same from `heap_init` on, over whatever the memory holds: the run starts at a sound heap of one free chunk and empty bins |
| Printf.DigitsDenote | kernel/vsprintf.c:64-71 | the digits denote the number in any base, are digits of that base and have no leading zero |
| Printf.NumberLength | kernel/vsprintf.c:28-134 | a number takes the maximum of the width and of sign, prefix and the larger of digits and precision |
| Printf.NumberDenotes | kernel/vsprintf.c:28-134 | under every combination of flags it consists of blanks, sign, prefix and digits that denote the argument as the conversion means it |
| Printf.AtoiReadsDigits | kernel/vsprintf.c:19-26 | `_skip_atoi` recovers the value of a run of digits inside any text and stops at its end |
| Printf.PrintedIntReadsBack | kernel/vsprintf.c:19-26 | every value up to INT_MAX survives being printed and read back |
| Printf.TruncationIsPrefix | kernel/vsprintf.c:331-335 | what two buffers of different size hold before their terminators are prefixes of one another |
| PrintfC11.TextIsC11Exactly | kernel/vsprintf.c:241-262 | for all strings of a length, `%s` prints what C11 asks for if and only if the precision cuts nothing off and no padding is due on the right |
| PrintfC11.TextDeviates | kernel/vsprintf.c:241-262 | otherwise a string of that length on which it does not |
| PrintfC11.NumberIsC11Exactly | kernel/vsprintf.c:28-134 | for every number, width, precision and flags in bases 8, 10 and 16, `_number` prints what C11 asks for if and only if a condition on these arguments holds; a negative precision, which the code replaces by 0, makes no difference to it |
| PrintfC11.OctalIsC11Exactly | kernel/vsprintf.c:90-95 | the same for `%#o`, where padding with zeros can hide the extra zero |
| PrintfC11.HashHexZero | kernel/vsprintf.c:96-105 | `%#x` of 0 prints `0x0` for `0` |
| PrintfC11.HashOctalZero | kernel/vsprintf.c:90-95 | `%#o` of 0 prints `00` for `0` |
| PrintfC11.ZeroPrecisionZero | kernel/vsprintf.c:64-74 | `%.0d` of 0 prints `0` for nothing |
| PrintfC11.ZeroFlagWithPrecision | kernel/vsprintf.c:76-114 | `%05.3d` of 7 prints `00007` for `  007` |
| PrintfDirectives.ParseReads | kernel/vsprintf.c:156-217 | every directive, written out as any flags in any order, a width, a precision and a qualifier in front of its conversion, is read as what it says: each flag if it occurs, numbers by their decimal value, `*` by the next argument as an int, a negative width as a left-justified one, a missing or negative precision behind a dot as 0, `ll` as one qualifier; it has no meaning exactly if a number passes INT_MAX, the width is the least int, or an argument is missing |
| PrintfDirectives.CutIs | kernel/vsprintf.c:309-328 | the lowest 16, 32 or 64 bits of a word, signed or unsigned, are the one number of that range that differs from the word by a multiple of 2^16, 2^32 or 2^64 |
| PrintfDirectives.DirectivePrints | kernel/vsprintf.c:148-330 | wherever a directive stands in a format, the output goes on with its conversion of the next argument, or with `%`, and then with the text and the arguments behind it |
| PrintfDirectives.OnlyConversions | kernel/vsprintf.c:219-308 | no other conversion has a result |
| PrintfDirectives.PlainText | kernel/vsprintf.c:148-155 | text without `%` is copied |
| PrintfDirectives.IntegerPrinted | kernel/vsprintf.c:277-329 | `%d`, `%i`, `%o`, `%u`, `%x` and `%X` print the argument cut to 16 bits for `h`, 64 for `l`, `ll`, `L`, `z` and `Z` and 32 without a qualifier, signed for the first two and unsigned otherwise: its sign, the prefix of `#`, zeros up to the precision and digits without leading zeros that denote it in base 8, 10 or 16, in lower case for `x` and upper case for `X`, justified in the width |
| PrintfDirectives.PointerPrinted | kernel/vsprintf.c:263-270 | `%p` prints the whole word in lower-case hexadecimal digits, without a width in 16 places filled up with zeros |
| PrintfDirectives.CharPrinted | kernel/vsprintf.c:220-240 | `%c` prints the character of the low byte, in the width |
| PrintfDirectives.TextPrinted | kernel/vsprintf.c:241-262 | `%s` prints `(null)` for an address below 4096 and the string at any other, with blanks in front up to the width and none behind |
| Printf.SkipAtoi | kernel/vsprintf.c:19-26 | the loop computes that value |
| Printf.ReadNumber | kernel/vsprintf.c:180-192 | a width or precision as digits or as an argument |
| Printf.ReadDirective | kernel/vsprintf.c:156-217 | flags, width, precision and qualifier as the parsing function has them |
| Printf.Put | kernel/vsprintf.c:150-153 | one character: written if it fits, counted in any case |
| Printf.Pad | kernel/vsprintf.c:76-83 | n characters of padding, and the counter it leaves |
| Printf.CollectDigits | kernel/vsprintf.c:64-71 | the digits, least significant first, never more than the 66 places |
| Printf.TakeSign | kernel/vsprintf.c:43-63 | the sign, the magnitude and the width that is left |
| Printf.PutPieces | kernel/vsprintf.c:76-133 | all pieces of a number in order |
| Printf.PutNumber | kernel/vsprintf.c:28-134 | prints the number the specification has, cut where the buffer ends |
| Printf.PutChar | kernel/vsprintf.c:220-240 | `%c` |
| Printf.PutString | kernel/vsprintf.c:241-262 | `%s`, as the code has it |
| Printf.PutConverted | kernel/vsprintf.c:219-329 | prints what the specification has for the conversion; what that is say `PrintfDirectives.IntegerPrinted` and the rows beside it |
| Printf.Vsnprintf | kernel/vsprintf.c:136-337 | the buffer holds the first min(size - 1, length) characters of the whole output and a terminator, nothing else changes, nothing behind size is written, and the answer is the length of the whole output as an int, whatever the size; the output of a format is described by `PrintfDirectives.DirectivePrints` and `PlainText` |
| Boot.Start | kernel/arch/x86_64/boot/kinit.c:99-163 | from the words of the firmware's table to any run of calls in the first address space: the page tables show what the calls did, and every frame handed out is a page that lies wholly in one entry of the firmware's type 1 and touches no entry of another type, not the table, not the kernel and no byte of the two bitmaps; it gives up before only for want of room in the map, if no page is vacant, if no region has room for the bytes of the bitmaps, or if every aligned block of 64 frames in the groups of 4096 frames between the allocator's limits holds a frame that is not vacant or holds bitmap bytes |
| Boot.RunOn | kernel/arch/x86_64/mem/vmm.c:179-194 | the part behind the allocator's initialisation: the first frame becomes the root table, and without one no word of a group of 4096 frames between the limits is entirely free |
| Boot.InitAllocator | kernel/arch/x86_64/boot/kinit.c:159 | the allocator starts on the map from the entry above the first available one: base 0, the limits of the boot code, and in use is what is not available or holds the bytes of the bitmaps; it fails only if no region has room for these |
| Boot.LoadKernelMap | kernel/arch/x86_64/boot/kinit.c:99-103 | the map with the kernel's pages marked, built whenever two array places are left for every entry, the table and the kernel |
| Boot.AvailableIsVacant | kernel/arch/x86_64/boot/kinit.c:99-103 | that map calls exactly the vacant pages available: those wholly in one entry of type 1 that touch no entry of another type, not the table and not the kernel |
| Boot.NothingVacant | kernel/arch/x86_64/boot/kinit.c:150-158 | when the search for an available entry fails, no page is vacant |
| Boot.UnusedIsVacant | kernel/mem/bitmap.c:104-111 | a frame not in use after `_init` is a vacant page in which no byte of the bitmaps lies |
| Boot.VacantIsUnused | kernel/mem/bitmap.c:104-111 | and a frame in use is not |
| Boot.RefusedMeansTaken | kernel/mem/bitmap.c:115-153 | when the first allocation is refused, every aligned block of 64 managed frames in the groups between the limits holds a frame that is not vacant or holds bitmap bytes |
| Boot.FindFirst | kernel/arch/x86_64/boot/kinit.c:150-158 | the loop finds the entry above the first available one and counts the entries |
| Boot.TrailingRegions | kernel/arch/x86_64/boot/kinit.c:159 | a list with further entries that start at 0 behind it is the same memory to the allocator |

## Left out

- Vmm.AddressSpace.constructor: starts from the PML4's frame with an allocator as `_init` leaves it, whose window begins on a page at or above 4096 and whose base is 0; `vmm_init`, the boot remap callbacks and the temporary mapping on lines 185-192 of vmm.c are not modelled.
- Vmm.AddressSpace.VmmMap: addresses in slot 510 of the PML4 and ranges that pass the top of the address space are excluded, because there the self-map or the wrap-around of the address would be mapped; flags lie outside the address bits 12 to 51, which the code would or into the frame.
- Vmm.AddressSpace.VmmMapTo: physical ranges end at 2^52, the width an entry can hold; flags as for `VmmMap`.
- Vmm.AddressSpace.Translate: addresses in slot 510 of the PML4, where translation shows the page tables themselves, are excluded.
- VmmRuns.Perform: accesses are to canonical addresses, the only ones for which the hardware walks the tables.
- Vmm.AddressSpace.VmmFree: given frames lie below tot_blk, where the allocator's bitmap ends, and are no tables, no frames of provided pages and not in use since `_init`; the code would hand those out again although they are still in use.
- Vmm.AddressSpace.Ksbrk: increments that take the break below the start of the heap are excluded, and what is mapped after the check on line 385 has been passed by a wrapped sum is not described: the result `PastHeap` ends the run.
- VmmRuns.Run: ends at the first failure; what the half-finished call leaves behind is not described. Calls that would free given frames other than the client's own, or shrink the heap below its start, are not made.
- Boot.Start: entries, table and kernel end below 2^52, the width of a page table entry; the kernel's own pages are not mapped into the new address space, and the run is one of clients of the virtual memory manager.
- PageTable.LiveEntry: the tables are those that the code itself creates below a cleared PML4; tables linked by others, with other flags, are not described.
- PageTable.SetLeafView: the hardware's accessed and dirty bits (include/tmos/arch/x86_64/memory.h:16-17), which it sets in entries as it walks, are not modelled; the macros that read them are not used.
- Multiboot.AsWrittenLoadExactly: speaks of loads that are right after every entry; a load that is wrong on the way and has its losses hidden by later entries counts as wrong, and the condition looks at the map as loaded so far. `Multiboot.AscendingLoadsSafely` needs the entries alone, but is one direction only.
- Multiboot.AvailableExactly: firmware entries and a table that end within the last page of the 64-bit address space, or wrap around it, are excluded, as in `StrongestAvailExactly` and `LoadAllTypes`.
- Bitmap.FrameAllocator.Free: frame numbers are below tot_blk; the code would read behind the bitmap otherwise.
- Tags.Firmware.GetTag: tables are well formed, with an end tag and tag sizes of at least 8 bytes; a tag of size 0 would keep the code's loop in place, and one that passes the table would make it read behind the table.
- BootMap.LoadFromTable: the tag's entry size is 24; `BootMap.ReadBackExactly` says that other sizes are not read right.
- KernelHeap.KernelHeap.Kfree: pointers in the heap are payload addresses of chunks, used or not; the code would take any other word for a header.
- KernelHeap.KernelHeap.Kmalloc: written for the documented list and split operations; as written the heap is not sound, as the runs of `HeapAsWritten.dfy` show. `ksbrk` is taken as moving the break, and its failure for want of frames as a panic.
- Printf.Vsnprintf: unknown conversions and `%n` give no result, because their copy loop does not advance once the buffer is full; a missing argument, a width or precision beyond INT_MAX and counters that would leave the range of int have no meaning in C and give no result either.
- Printf.PutNumber: the negation of the smallest 64-bit number is taken as wrapping around.
- The managed flag of regions (kernel/mem/bitmap.c:86), `mmap_print` and the names of region types: they change no lookup.
- `_remap_cb`, `vmm_switch_addr_space`, TLB flushes and MSR or CR3 access: writes to page tables take effect at once in the model.
- Data behind virtual addresses: the model follows page tables through the self-map, but not what user data a mapping shows.
- `kcalloc`, the unused accessors of heap.c, chunk coalescing and the use of the prev-used flag: not part of `kmalloc` and `kfree`, or easy.
- `list_add_tail`, `vsprintf`, `sprintf` and `snprintf`: plain wrappers.
- Spinlocks, serial output, logging, interrupts, timers and both bootloader stages.
