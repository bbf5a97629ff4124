# paradoxos kernel core in Dafny

A model of the core of the paradoxos x86-64 hobby kernel, with proofs about it.
The core is its memory management, its in-memory file systems, its kernel
libraries, its PS/2 input drivers, its window manager and application
framework, its scheduler, user table and system calls, its ACPI/MADT parsing,
its descriptor tables and its two pixel layers. Each C file is modelled in the
form it is written in. Code that updates globals and buffers in loops becomes
a Dafny `class` whose methods run the same loops on `array` fields; each
method is proved against a pure function of its old state, kept in a `*Spec`
module. The properties the kernel relies on are lemmas about those functions.
The C's fixed-width integers are bounded mathematical integers. The
wrap-arounds, truncations, sign extensions and truncating divisions the
modelled code performs are written out with the helpers of `Machine` (see
below); where the model uses an unbounded counter or leaves a conversion out,
"## Left out" says so. Boot-loader
responses, the HHDM offset, the memory map and the framebuffer mode are
parameters of the model. `mm/vmm.c` draws its frames from `mm/pmm.c`'s
allocator, whose frame flags are part of the VMM's state; everywhere else the
values `pmm_alloc` hands out are parameters.

Modules, by the C files they model (paths under `src/kernel/`):

- `Machine`, `Wrappers`: integer widths, C conversions and division,
  little-endian memory, and `Option`/`Result`.
- `Limine`: the boot loader's memory map shared by both frame allocators.
- `VmmSpec`, `VmmProps`, `Vmm` (`mm/vmm.c`):
  - the four-level page tables in a memory indexed by page, reached through the pointers `mm/pmm.c`'s `pmm_alloc`
    returns (frame f as the address f * 4096) and through `phys_to_virt` of an entry's address;
  - mapping and unmapping, and copy-on-write and demand faults;
  - the 1024-slot swap store, with the cyclic victim search;
  - `vmm_new_pml4`'s kernel-half copy.
- `PhysPmm` (`mm/pmm.c`): the HHDM-less bitmap frame allocator.
- `HhdmPmm` (`memory/pmm.c`): the frame allocator that carves its bitmap out of the memory map.
- `FirstFit`: the first-fit run search both allocators share.
- `Bitmap` (`libk/alloc/bitmap.c`): the byte-array bit map.
- `Slab` (`memory/slab.c`): eleven power-of-two size classes, from 2 to 2048 bytes, each over one page.
- `VfsSpec`, `VfsProps`, `Vfs` (`fs/vfs.c`): the memfs node arena, path resolution, the 256-entry descriptor table, and
  open, read, write, close, stat, readdir, mkdir and init.
- `RamdiskSpec`, `Ramdisk` (`ramdisk.c`): the initrd directory and its read.
- `CString` (`lib/string.c`), `KString` (`libk/string.c`): the C string and memory functions over one byte array, with
  overlap visible to `memmove`.
- `Printk` (`lib/printk.c`): decimal and hexadecimal conversion and the format interpreter, whose output is an
  appended sequence.
- `KMath` (`libk/math.c`): `k_pow`.
- `Ps2`: the two movement decodings of the PS/2 mouse packet.
- `KeyInput` (`drivers/input/keyboard.c`): modifiers, locks, the 256-entry ring buffer, scancode translation, and the
  mouse packet state machine.
- `Keyboard` (`keyboard.c`): the legacy last-key driver.
- `Mouse` (`mouse.c`): the legacy mouse driver.
- `WmSpec`, `WindowManager` (`gui/window.c`): the 64-slot window table, focus, z-order, hit testing, clicks, and
  `wm_render_all`'s bubble sort.
- `AppSpec`, `AppFramework` (`app/framework.c`): application registration and its windows.
- `SchedSpec`, `Scheduler` (`sched/scheduler.c`): the task table and round robin.
- `UserSpec`, `UserDb` (`user.c`): the user table and login.
- `SyscallSpec`, `Syscall` (`syscall.c`): the dispatch table, pointer validation, and the ten system calls.
- `AcpiSpec`, `Acpi` (`firmware/acpi/acpi.c`): the SDT checksum, the header check and the RSDT scan.
- `MadtSpec`, `Madt` (`firmware/acpi/tables/madt.c`): the walk over the MADT's interrupt-controller structures.
- `DescriptorSpec`: the bit layout of GDT, TSS and IDT descriptors.
- `ArchGdt`, `ArchIdt` (`arch/gdt.c`, `arch/idt.c`), `Cpu` (`cpu.c`), `KernelGdt`, `KernelIdt` (`gdt.c`, `idt.c`): the
  tables each init fills.
- `Canvas`, `Framebuffer` (`drivers/video/framebuffer.c`): the framebuffer driver, with its optional back buffer,
  clipping, alpha blending, Bresenham lines and overlapping region copies.
- `Gfx` (`gfx.c`): the clamped 1280 x 800 back buffer, rounded rectangles, gradients, images and the swap.

Bit fields that the C combines with `|` are written as sums of disjoint fields.
The window flag words are sets of bit numbers.

## Model

| member | source | states |
|---|---|---|
| VmmSpec.ZeroPage | src/kernel/mm/vmm.c:219 | the page memset(…, 0, PAGE_SIZE) leaves: 512 zero words |
| VmmSpec.AddressOf | src/kernel/mm/vmm.c:62 | the 0xFFFFFFFFFFFFF000 mask gives a page-aligned value no larger than the entry |
| VmmSpec.FrameEntryDecodes | src/kernel/mm/vmm.c:217-220 | for frame f, handed out as the pointer f * 4096, the entry `virt_to_phys(ptr) \| PRESENT \| WRITABLE` is present and writable, not COW or swapped; its address is f * 4096 - hhdm modulo 2^64, and phys_to_virt of that address leads back to page f |
| VmmSpec.FrameEntryPhysicalIff | src/kernel/mm/vmm.c:220 | that entry holds frame f's physical address f * 4096 exactly when the HHDM offset is 0 |
| VmmSpec.HhdmAllocatorAgrees | src/kernel/memory/pmm.c:91-104 | with an allocator that hands frame f out as its HHDM pointer, as memory/pmm.c's does, the fresh entry holds f * 4096, following it reaches that pointer's page, and unmapping a leaf frees paddr's own frame |
| VmmSpec.LeafEntryDecodes | src/kernel/mm/vmm.c:243 | the leaf `(paddr & ~0xFFF) \| (flags & 0xFFF) \| PRESENT` is present, holds paddr's page-aligned address and keeps exactly the low 12 flag bits, so flags above bit 11 are dropped |
| VmmSpec.LeafSplits | src/kernel/mm/vmm.c:243 | the leaf is paddr's frame followed by the kept low flags |
| VmmSpec.LeafKeepsNx | src/include/mm/vmm.h:13 | bit 63 of a leaf is bit 63 of paddr, never of flags |
| VmmSpec.LowFlagsFacts | src/kernel/mm/vmm.c:243 | the kept flags are odd (PRESENT), below bit 12, and depend only on flags' low 12 bits |
| VmmSpec.CowLeafIsReadOnly | src/kernel/mm/vmm.c:251-253 | vmm_map_cow_page's leaf is present and COW with WRITABLE clear |
| VmmSpec.SwapEntryDecodes | src/kernel/mm/vmm.c:81 | `(slot << 12) \| PTE_SWAPPED` is not present, is swapped, is not COW, and gives back the slot through `(pte >> 12) & 0xFFFFF` |
| VmmSpec.IndicesSliceAddress | src/kernel/mm/vmm.c:9-12 | the four indices are below 512 and, with the page offset, rebuild the low 48 bits of the address |
| VmmSpec.PhysVirtInverse | src/kernel/mm/vmm.c:41-47 | phys_to_virt and virt_to_phys undo each other in 64-bit arithmetic for every address and offset |
| VmmSpec.ReadWrite | src/kernel/mm/vmm.c:243 | writing one word of one frame changes only that word |
| VmmSpec.FirstFree | src/kernel/mm/pmm.c:85-98 | the frame pmm_alloc(1)'s scan settles on is the lowest free one; there is none exactly when every frame is in use |
| VmmSpec.Alloc | src/kernel/mm/pmm.c:81-101 | vmm.c's pmm_alloc(1) yields the lowest free frame f, other than 0; it fails exactly when every frame is in use or when frame 0 is free, because frame 0's pointer 0 * 4096 is NULL |
| VmmSpec.Claim | src/kernel/mm/pmm.c:90-93 | pmm_alloc(1) marks the lowest free frame used, frame 0 included, and changes nothing when none is free |
| VmmSpec.Release | src/kernel/mm/pmm.c:103-108 | pmm_free(p, 1) clears the flag of frame p / 4096 and no other; a frame past the flags changes nothing |
| VmmSpec.IncDecWrap | src/kernel/mm/vmm.c:87 | the total_mapped_pages increments and decrements are size_t arithmetic and undo each other |
| VmmSpec.WalkFrom | src/kernel/mm/vmm.c:61-70 | the walk from a table visits at most the remaining levels and starts at that table |
| VmmSpec.WalkFrame | src/kernel/mm/vmm.c:61-70 | a walk depends only on the tables whose entries it reads |
| VmmSpec.Ensure | src/kernel/mm/vmm.c:216-221 | one level of vmm_map_page: a present entry is followed, unchanged, to the page phys_to_virt of its address falls in; a missing one gets the allocated frame zeroed and entered as `virt_to_phys(ptr) \| PRESENT \| WRITABLE`; a failed allocation (no free frame, or frame 0 as NULL) stops the call with the claimed frame marked; the swap state and the HHDM offset are untouched |
| VmmSpec.Descend | src/kernel/mm/vmm.c:215-240 | the three intermediate levels of vmm_map_page, each table reached through phys_to_virt of the entry above; the swap state is untouched |
| VmmSpec.MapPage | src/kernel/mm/vmm.c:209-249 | vmm_map_page on the memory, mm/pmm.c's frame flags and the counter, tables reached through phys_to_virt (its properties are the VmmProps.Map… lemmas) |
| VmmSpec.MapCowPage | src/kernel/mm/vmm.c:251-253 | vmm_map_cow_page is vmm_map_page with PTE_COW |
| VmmSpec.UnmapPage | src/kernel/mm/vmm.c:275-299 | vmm_unmap_page: a present leaf is cleared and the frame pmm_free(phys_to_virt(paddr)) names is released (properties in VmmProps.Unmap…) |
| VmmSpec.NewRoot | src/kernel/mm/vmm.c:258-266 | the words of a new PML4 after the zeroing and the kernel-half copy |
| VmmSpec.NewPml4 | src/kernel/mm/vmm.c:255-269 | vmm_new_pml4 as a state transition (properties in VmmProps.NewPml4Layout) |
| VmmSpec.SlotAt | src/kernel/mm/vmm.c:52 | `(swap_next + i) % SWAP_PAGES` is a slot number |
| VmmSpec.FreeSlot | src/kernel/mm/vmm.c:51-53 | the slot swap_out_page's search picks is a slot number |
| VmmSpec.SwapOut | src/kernel/mm/vmm.c:49-92 | swap_out_page: the page phys_to_virt(paddr) falls in is copied to the slot, and the frame pmm_free(phys_to_virt(paddr)) names is released; kernel_pml4 is unchanged (properties in VmmProps.SwapOutStores) |
| VmmSpec.SwapIn | src/kernel/mm/vmm.c:94-121 | swap_in_page: a failed pmm_alloc(1), frame 0 as NULL included, returns -1 with the claimed frame marked; otherwise the slot fills the frame and the leaf becomes `virt_to_phys(ptr) \| PRESENT \| WRITABLE`; kernel_pml4 is unchanged (properties in VmmProps.SwapInRestores) |
| VmmSpec.HandleFault | src/kernel/mm/vmm.c:123-207 | handle_page_fault: a failed swap-in goes on to the COW and demand branches with the frame it claimed still marked (properties in VmmProps.Fault…) |
| VmmSpec.CowOrDemand | src/kernel/mm/vmm.c:160-204 | the COW and demand-paging branches: a COW write copies the page the leaf's address leads to into a fresh frame; when the copy's allocation fails (frame 0 as NULL included) the claimed frame stays marked and a missing leaf still gets demand paging |
| VmmSpec.Demand | src/kernel/mm/vmm.c:180-204 | the demand-paging branch, with eviction of victim 0x400000 + (total % 100) * PAGE_SIZE under pressure; a failed pmm_alloc(1) leaves only the claimed frame marked |
| VmmProps.CountFreeTake | src/kernel/mm/vmm.c:217 | taking a free frame leaves one fewer free frame |
| VmmProps.FirstFreeIffCount | src/kernel/mm/vmm.c:217-218 | pmm_alloc(1) fails exactly when no frame is free |
| VmmProps.WalkFromFresh | src/kernel/mm/vmm.c:219 | a freshly zeroed table has no present entry, so a walk stops at it |
| VmmProps.EnsureAllocates | src/kernel/mm/vmm.c:216-221 | a missing entry's allocation takes the lowest free frame. When that is frame 0, whose pointer is NULL, the call stops with it marked and nothing else changed. Any other frame is zeroed, the entry leads to it, and no other frame changes |
| VmmProps.DescendFacts | src/kernel/mm/vmm.c:215-240 | from a sound walk, the descent reaches a page table exactly when the free frames cover the missing levels; it only adds frames, keeps the walk sound and changes no frame off the walk |
| VmmProps.DescendThrough | src/kernel/mm/vmm.c:222 | the descent through a present entry is the descent from the next table |
| VmmProps.DescendAllocating | src/kernel/mm/vmm.c:216-222 | the descent through a missing entry is the descent from the fresh frame |
| VmmProps.AllocateStep | src/kernel/mm/vmm.c:216-222 | the allocation at a missing entry takes one free frame, keeps every used frame used and every other frame's words. The fresh frame's walk is the frame alone |
| VmmProps.LiftDescended | src/kernel/mm/vmm.c:222 | the descent's properties carry up one level |
| VmmProps.MapThenTranslate | src/kernel/mm/vmm.c:243-248 | when the free frames cover the missing levels, va translates to the new leaf afterwards, the walk stays sound and total_mapped_pages grows by one |
| VmmProps.DescendReaches | src/kernel/mm/vmm.c:215-240 | with enough free frames the descent reaches a page table along a sound walk |
| VmmProps.MapExhausted | src/kernel/mm/vmm.c:218 | when frames run out, va still has no translation, every frame is used and total_mapped_pages is unchanged; tables already created stay |
| VmmProps.MapKeepsOthers | src/kernel/mm/vmm.c:209-249 | vmm_map_page releases no frame, changes no allocated frame off the old walk, and leaves the swap state alone |
| VmmProps.LeafWritten | src/kernel/mm/vmm.c:243 | writing the leaf makes va translate to it and keeps the walk |
| VmmProps.MapCowIsReadOnly | src/kernel/mm/vmm.c:251-253 | after vmm_map_cow_page with enough frames, va translates to a present, read-only COW leaf |
| VmmProps.UnmapClears | src/kernel/mm/vmm.c:281-297 | with a level missing nothing changes; otherwise va's leaf reads 0 |
| VmmProps.UnmapReleases | src/kernel/mm/vmm.c:290-297 | a present leaf's frame, the page phys_to_virt of its address falls in, is released and the counter drops; a leaf that is not present, a swapped one included, is cleared without releasing anything |
| VmmProps.UnmapPresent | src/kernel/mm/vmm.c:290-297 | unmapping a present leaf of a sound walk makes va translate to 0, releases the page phys_to_virt of its address falls in and drops the counter |
| VmmProps.MapThenUnmap | src/kernel/mm/vmm.c:243-248 | unmapping what was just mapped: va translates to 0, the counter is back, and the frame released is the page phys_to_virt(paddr) falls in (paddr's own frame only with an HHDM offset of 0) |
| VmmProps.MapThenUnmapKeepsFrame | src/kernel/mm/vmm.c:293 | with the default HHDM offset 0xffff800000000000, mapping 0x200000 and unmapping it releases frame 0xffff800000200, past the flags: frame 0x200 stays used |
| VmmProps.NewPml4Layout | src/kernel/mm/vmm.c:255-269 | with frame 0 in use, vmm_new_pml4 fails, changing nothing, exactly when no frame is free; otherwise the table is a frame that was free, entries 0-255 are 0, entries 256-511 are kernel_pml4's (0 without one), and no other frame changes |
| VmmProps.SameTopSameTranslate | src/kernel/mm/vmm.c:61-70 | two roots that agree on va's entry translate va alike |
| VmmProps.NewPml4SharesKernelHalf | src/kernel/mm/vmm.c:261-266 | the new table translates every upper-half address as kernel_pml4 does and no lower-half one |
| VmmProps.Offset | src/kernel/mm/vmm.c:52 | every slot lies some distance below 1024 after swap_next, going round |
| VmmProps.FreeSlotIsFirst | src/kernel/mm/vmm.c:51-53 | the slot picked is free and every slot from swap_next up to it, going round, is taken; none is found exactly when all 1024 are taken |
| VmmProps.SwapOutStores | src/kernel/mm/vmm.c:49-92 | success exactly when a slot is free and va's leaf is present. Then the slot holds the words of the page phys_to_virt of the leaf's address falls in, and is taken; swap_next is slot+1 mod 1024. The leaf becomes (slot<<12)\|SWAPPED, that page's frame is released and the counter drops. On failure, -1 and nothing changes |
| VmmProps.BlindPtFollowsWalk | src/kernel/mm/vmm.c:110-112 | swap_in_page's unchecked table lookup is the walk's page table on a complete walk |
| VmmProps.SwapInRestores | src/kernel/mm/vmm.c:94-121 | with frame 0 in use and a frame f free, the slot's words land in f, va's leaf is `virt_to_phys(f * 4096) \| PRESENT \| WRITABLE`, the slot is free again and the counter grows |
| VmmProps.SwapOutThenIn | src/kernel/mm/vmm.c:76-119 | swap-out then swap-in restores the page's words in a new present, writable frame; the slot is free and the counter is back. The page's frame must be one of the allocator's other than 0 |
| VmmProps.SwappedOutWalk | src/kernel/mm/vmm.c:81-82 | after swap_out_page the walk is unchanged and sound and a frame is free |
| VmmProps.InstallAndPoint | src/kernel/mm/vmm.c:192-195 | filling a free frame and pointing va's leaf at it as `virt_to_phys(ptr) \| PRESENT \| WRITABLE` makes va translate to that entry |
| VmmProps.FaultCopiesOnWrite | src/kernel/mm/vmm.c:161-176 | with frame 0 in use, a write fault on a COW leaf with a frame free gets a private copy of the page the leaf leads to, mapped PRESENT\|WRITABLE; the counter is unchanged and the old frame is not released |
| VmmProps.FaultZeroFills | src/kernel/mm/vmm.c:180-203 | with frame 0 in use, a fault on a missing leaf below the pressure limit with a frame free maps a zeroed frame PRESENT\|WRITABLE and the counter grows |
| VmmProps.FaultLeavesAlone | src/kernel/mm/vmm.c:131-146 | a missing upper level, a present non-COW-write leaf, a missing leaf with no free frame, or a failed eviction under pressure changes nothing |
| VmmProps.FaultSwapsBackIn | src/kernel/mm/vmm.c:152-158 | with frame 0 in use, a page swapped out and then touched is swapped back in with its old words; the slot is free and the counter is back |
| Vmm.CopiedStep | src/kernel/mm/vmm.c:263-265 | one pass of the copy loop adds one kernel entry to the table |
| Vmm.CopiedAll | src/kernel/mm/vmm.c:261-266 | after entry 511 the table is NewRoot of the kernel table |
| Vmm.Vmm.constructor | src/kernel/mm/vmm.c:18-39 | the statics: empty swap store, no kernel_pml4, counters 0, and the HHDM offset get_hhdm_offset returns |
| Vmm.Vmm.Init | src/kernel/mm/vmm.c:301-314 | kernel_pml4 becomes the page phys_to_virt(cr3) falls in, and every swap slot is freed |
| Vmm.Vmm.FindPt | src/kernel/mm/vmm.c:281-288 | the three present-bit checks give va's page table, or None at the first missing level |
| Vmm.Vmm.EnsureLevel | src/kernel/mm/vmm.c:216-221 | the array state after one level, frame 0 claimed as NULL included, is VmmSpec.Ensure's |
| Vmm.Vmm.MapPage | src/kernel/mm/vmm.c:209-249 | the state after the method is VmmSpec.MapPage's |
| Vmm.Vmm.MapCowPage | src/kernel/mm/vmm.c:251-253 | the state after the method is VmmSpec.MapCowPage's |
| Vmm.Vmm.UnmapPage | src/kernel/mm/vmm.c:275-299 | the state after the method is VmmSpec.UnmapPage's |
| Vmm.Vmm.NewPml4 | src/kernel/mm/vmm.c:255-269 | the state and the result are VmmSpec.NewPml4's |
| Vmm.Vmm.CopyKernelHalf | src/kernel/mm/vmm.c:263-265 | the loop leaves the new table equal to NewRoot of kernel_pml4; nothing else changes |
| Vmm.Vmm.SwapOutPage | src/kernel/mm/vmm.c:49-92 | the cyclic slot search and eviction give VmmSpec.SwapOut's state and result |
| Vmm.Vmm.Evict | src/kernel/mm/vmm.c:55-88 | the eviction once a slot is found gives VmmSpec.SwapOut's state and result |
| Vmm.Vmm.SwapInPage | src/kernel/mm/vmm.c:94-121 | the state and the result, frame 0 claimed as NULL included, are VmmSpec.SwapIn's |
| Vmm.Vmm.HandlePageFault | src/kernel/mm/vmm.c:123-207 | the state after the method is VmmSpec.HandleFault's |
| Vmm.Vmm.CopyOrDemand | src/kernel/mm/vmm.c:160-204 | the state after the method, a failed COW allocation falling through to demand paging included, is VmmSpec.CowOrDemand's |
| Vmm.Vmm.DemandPage | src/kernel/mm/vmm.c:180-204 | the state after the method, frame 0 claimed as NULL included, is VmmSpec.Demand's |
| Bitmap.PutBitAt | src/kernel/libk/alloc/bitmap.c:3-9 | `\|= (1 << k)` and `&= ~(1 << k)` give bit k the new value and keep the other seven bits |
| Bitmap.ByteExt | src/kernel/libk/alloc/bitmap.c:3-13 | a byte is determined by its eight bits |
| Bitmap.CheckBitValue | src/kernel/libk/alloc/bitmap.c:11-13 | bitmap_check_bit returns 0 or the bit's own mask, never another value |
| Bitmap.WithSame | src/kernel/libk/alloc/bitmap.c:3-13 | after setting (clearing) bit i, bitmap_check_bit on i is nonzero (zero) |
| Bitmap.WithOther | src/kernel/libk/alloc/bitmap.c:3-9 | setting or clearing bit i leaves every other bit of the map unchanged |
| Bitmap.SameBits | src/kernel/libk/alloc/bitmap.c:11-13 | a map is determined by its bits |
| Bitmap.WithIdempotent | src/kernel/libk/alloc/bitmap.c:3-9 | setting or clearing a bit twice is doing it once |
| Bitmap.SetRangeTest | src/kernel/mm/pmm.c:91-93 | setting or clearing bits s..s+n-1 in turn gives exactly those bits the value and leaves the rest |
| Bitmap.SetRangeSnoc | src/kernel/mm/pmm.c:105-107 | one more turn of a range loop extends the range by one bit |
| Bitmap.WithUnchanged | src/kernel/libk/alloc/bitmap.c:3-9 | writing a bit its current value changes nothing |
| Bitmap.ViewWith | src/kernel/libk/alloc/bitmap.c:3-9 | writing bit i changes exactly entry i of the map read as booleans |
| Bitmap.CountSetWith | src/kernel/memory/pmm.c:106-110 | writing a bit changes the count of set bits by the change at that bit |
| Bitmap.ViewSetRange | src/kernel/mm/pmm.c:91-93 | a range of writes on the bytes is a range fill of the booleans |
| Bitmap.CountClearFill | src/kernel/memory/pmm.c:106-110 | clearing a range lowers the count of set bits by the set bits it held |
| Bitmap.CountSetFill | src/kernel/memory/pmm.c:87-90 | setting a clear run of n bits raises the count by n |
| Bitmap.PopulationClearRange | src/kernel/memory/pmm.c:106-110 | clearing a range lowers the population by the set bits it held |
| Bitmap.AllOnes | src/kernel/mm/pmm.c:54 | a map memset to 0xFF has every bit set |
| Bitmap.SetBit | src/kernel/libk/alloc/bitmap.c:3-5 | the array afterwards is the map with bit `bit` set and no other bit changed |
| Bitmap.UnsetBit | src/kernel/libk/alloc/bitmap.c:7-9 | the array afterwards is the map with bit `bit` cleared and no other bit changed |
| FirstFit.FirstFitFrom | src/kernel/mm/pmm.c:85-99 | a run found from `from` on starts no lower than `from` and fits below the limit |
| FirstFit.Search | src/kernel/mm/pmm.c:85-100 | a run is found only for a request above 0 and fits below the limit |
| FirstFit.SearchIsLowestRun | src/kernel/mm/pmm.c:85-95 | the scan finds s exactly when s starts the lowest clear run of n > 0 bits that fits |
| FirstFit.SearchFails | src/kernel/mm/pmm.c:86-89 | the scan finds nothing exactly when n is 0 (the count test follows the increment) or no clear run of n bits fits |
| FirstFit.AllocThenFreeRestores | src/kernel/mm/pmm.c:91-94 | clearing the run a search found, after setting it, gives back the map searched |
| FirstFit.ClearingClearRunIsNoOp | src/kernel/mm/pmm.c:103-107 | clearing bits already clear changes nothing, so freeing a free frame is harmless |
| FirstFit.PopulationSetClearRun | src/kernel/memory/pmm.c:87-90 | setting a clear run of n bits raises the population by exactly n |
| FirstFit.SearchAvoidsSetBit | src/kernel/memory/pmm.c:72 | a found run covers only clear bits, so a set bit (bit 0 after init) is never handed out |
| FirstFit.ClearRangeTwice | src/kernel/mm/pmm.c:103-107 | a cleared range is a clear run, and clearing it again changes nothing |
| FirstFit.FindRun | src/kernel/mm/pmm.c:85-99 | the scan loop with its streak counter finds a run exactly when Search does, and the same start |
| PhysPmm.HighestTop | src/kernel/mm/pmm.c:37-41 | highest_addr is the largest base + length over all entries of any type, 0 with no entries |
| PhysPmm.BitmapSizeAsWritten | src/kernel/mm/pmm.c:44 | ALIGN_UP(total_pages / 8, PAGE_SIZE) as written is a whole number of pages |
| PhysPmm.BitmapSizeAsWrittenTooSmall | src/kernel/mm/pmm.c:44 | with 32769 frames the as-written bitmap has 32768 bits, so frame 32768 has no bit |
| PhysPmm.BitmapSize | src/kernel/mm/pmm.c:43-44 | the corrected size: whole pages, a bit for every frame, less than one page of slack |
| PhysPmm.FreedStep | src/kernel/mm/pmm.c:63-72 | scanning one more entry frees exactly its frames in addition |
| PhysPmm.UsableFramesFreed | src/kernel/mm/pmm.c:63-75 | every frame of every usable entry is free after init, the bitmap's own frames and frame 0 included |
| PhysPmm.UncoveredFramesUsed | src/kernel/mm/pmm.c:54 | a frame no usable entry covers stays used after init |
| PhysPmm.FrameAllocator.constructor | src/kernel/mm/pmm.c:13-16 | the statics: no bitmap, no frames |
| PhysPmm.FrameAllocator.Init | src/kernel/mm/pmm.c:30-78 | no memory map leaves the allocator as it was. Otherwise the bitmap is placed in the first usable entry that holds it, and bit j is clear exactly when a usable entry covers frame j |
| PhysPmm.FrameAllocator.ClearUsable | src/kernel/mm/pmm.c:63-72 | after the loop bit j is clear exactly when a usable entry covers frame j |
| PhysPmm.FrameAllocator.UnsetFrames | src/kernel/mm/pmm.c:68-70 | the inner loop clears exactly frames start..end-1 |
| PhysPmm.FrameAllocator.Alloc | src/kernel/mm/pmm.c:81-101 | with a clear run of count frames, the lowest is marked used and start * PAGE_SIZE returned. Otherwise, and always for count 0, NULL is returned and nothing changes |
| PhysPmm.FrameAllocator.SetFrames | src/kernel/mm/pmm.c:91-93 | the marking loop sets exactly bits start..start+count-1 |
| PhysPmm.FrameAllocator.Free | src/kernel/mm/pmm.c:103-108 | exactly the bits of count frames from paddr's frame on are cleared, set or not |
| HhdmPmm.HighestTop | src/kernel/memory/pmm.c:20-29 | highest_address is the largest top among usable, reclaimable and kernel entries only, or 0 |
| HhdmPmm.BitmapSize | src/kernel/memory/pmm.c:36-38 | max_pages / 8 + 1 bytes rounded up to pages: a bit for every page, positive, whole pages |
| HhdmPmm.Carve | src/kernel/memory/pmm.c:48-49 | the home entry's base grows and its length shrinks by bitmap_size; no other entry changes |
| HhdmPmm.PagesBelow | src/kernel/memory/pmm.c:61-66 | the decrements for an entry are at most the pages visited |
| HhdmPmm.CoveredIff | src/kernel/memory/pmm.c:58-69 | a page is freed exactly when some usable entry's loop visits it |
| HhdmPmm.ScanStep | src/kernel/memory/pmm.c:58-69 | one more entry adds its pages and its decrements |
| HhdmPmm.CarvedHomeSkipsBitmap | src/kernel/memory/pmm.c:47-49 | for a page-aligned home entry, the init loop visits no page of the bitmap's block |
| HhdmPmm.PageOfCursor | src/kernel/memory/pmm.c:61-62 | the t-th cursor visits page base / PAGE_SIZE + t |
| HhdmPmm.ClearStep | src/kernel/memory/pmm.c:106-110 | one turn of pmm_free extends the cleared range, and the bit it tests still holds its original value |
| HhdmPmm.AllocKeepsBalance | src/kernel/memory/pmm.c:87-90 | pmm_alloc keeps used_pages minus the set-bit count constant |
| HhdmPmm.AllocSkipsPageZero | src/kernel/memory/pmm.c:72 | with bit 0 set, pmm_alloc never hands out page 0, and bit 0 stays set |
| HhdmPmm.FreeKeepsBalance | src/kernel/memory/pmm.c:106-110 | pmm_free keeps used_pages minus the set-bit count constant |
| HhdmPmm.DoubleFreeIsNoOp | src/kernel/memory/pmm.c:106-110 | a second pmm_free of the same pages clears nothing and counts nothing |
| HhdmPmm.FrameAllocator.constructor | src/kernel/memory/pmm.c:4-7 | the zero-initialised statics |
| HhdmPmm.FrameAllocator.Init | src/kernel/memory/pmm.c:12-73 | the HHDM offset is taken when present and highest_address comes from the counted entries. The bitmap is carved from the first usable entry that holds it. Bit p is then set exactly when page p is not visited below max_pages, or p is 0. used_pages is max_pages minus one per visit, and the page-0 set is not counted |
| HhdmPmm.FrameAllocator.PlaceBitmap | src/kernel/memory/pmm.c:41-72 | the block is carved from the first usable entry that holds it, then the bitmap is filled as Init states |
| HhdmPmm.FrameAllocator.Measure | src/kernel/memory/pmm.c:13-33 | the offset, highest_address, max_pages and used_pages = max_pages |
| HhdmPmm.FrameAllocator.FillBitmap | src/kernel/memory/pmm.c:55-72 | from 0xFF bytes the bitmap ends as Init states, with one decrement per visit |
| HhdmPmm.FrameAllocator.ReservePageZero | src/kernel/memory/pmm.c:72 | bit 0 is set again with no used_pages change |
| HhdmPmm.FrameAllocator.FreeUsable | src/kernel/memory/pmm.c:58-69 | the usable entries' pages below max_pages are cleared, with one decrement each |
| HhdmPmm.FrameAllocator.FreeEntryPages | src/kernel/memory/pmm.c:61-67 | the inner loop clears each page of the entry below max_pages and decrements once per page |
| HhdmPmm.FrameAllocator.Alloc | src/kernel/memory/pmm.c:75-99 | the first clear run is marked used, used_pages grows by the count and the HHDM address is returned. With no run, and for count 0, NULL and nothing changes |
| HhdmPmm.FrameAllocator.SetPages | src/kernel/memory/pmm.c:87-89 | the marking loop sets exactly the run's bits |
| HhdmPmm.FrameAllocator.Free | src/kernel/memory/pmm.c:101-112 | NULL is ignored; otherwise the pages from (ptr - offset) / PAGE_SIZE on are cleared and used_pages drops by the number that were set |
| HhdmPmm.FrameAllocator.ClearPages | src/kernel/memory/pmm.c:106-111 | the loop clears the range and drops used_pages by the set bits it held |
| HhdmPmm.FrameAllocator.ClearNext | src/kernel/memory/pmm.c:107-110 | one turn, stated against the map before the loop |
| HhdmPmm.FrameAllocator.ClearIfSet | src/kernel/memory/pmm.c:107-110 | a set bit is cleared and counted; a clear bit is left alone |
| Slab.ClassSizeFacts | src/kernel/memory/slab.c:30-33 | slab i's size 1 << (i + 1) lies in 2..2048, divides MAX_SLAB_SIZE, and gives at most MAX_OBJECTS_PER_SLAB objects |
| Slab.ClassSizeValue | src/kernel/memory/slab.c:30 | the eleven sizes are 2, 4, …, 2048 |
| Slab.ClassSizeStep | src/kernel/memory/slab.c:54-57 | each class is twice the size of the one before |
| Slab.ClassFromFacts | src/kernel/memory/slab.c:52-57 | the doubling loop from class i stops at a class that holds the request, or at the last, with the class before it too small |
| Slab.ClassOfIsSmallest | src/kernel/memory/slab.c:52-57 | the class chosen is the smallest that holds the request; above 2048 bytes it is the last class |
| Slab.ClassFromStops | src/kernel/memory/slab.c:54 | where the loop stops, the class holds the request unless it is the last one |
| Slab.FirstNonNullFrom | src/kernel/memory/slab.c:11-14 | the scan from `from` finds the lowest non-NULL slot at or after it, and fails exactly when all are NULL |
| Slab.FirstNonNullIsLowest | src/kernel/memory/slab.c:9-15 | find_free_object finds the lowest non-NULL slot and fails exactly when every slot is NULL |
| Slab.ReplaceKeepsValid | src/kernel/memory/slab.c:69-70 | replacing a slab by one of the same range with its slots at home keeps the table valid |
| Slab.AllocKeepsValid | src/kernel/memory/slab.c:50-72 | slab_alloc keeps the table valid: every non-NULL slot j holds start + j * size, and ranges are disjoint |
| Slab.SlotIndexBound | src/kernel/memory/slab.c:80-83 | a pointer a slab accepts names one of its objects, and is that object's address |
| Slab.MultipleOfSize | src/kernel/memory/slab.c:81-83 | an offset j * size is on an object boundary and names object j |
| Slab.HomeInRange | src/kernel/memory/slab.c:45-46 | object j lies within the slab's address range, and is not NULL |
| Slab.ObjectFits | src/kernel/memory/slab.c:33-43 | every object of a slab ends inside its 2048-byte block |
| Slab.HomeInjective | src/kernel/memory/slab.c:41-42 | two objects of a slab lie at different addresses |
| Slab.HomeAccepted | src/kernel/memory/slab.c:78-83 | object j is accepted by its slab and its offset names slot j |
| Slab.FreeFindsSlab | src/kernel/memory/slab.c:77-87 | in a valid table only the slab whose range holds the pointer takes it back |
| Slab.FreeIgnoresForeign | src/kernel/memory/slab.c:75-92 | freeing NULL, or a pointer no slab accepts, leaves the table as it was |
| Slab.FreeFromForeign | src/kernel/memory/slab.c:77-89 | the loop from slab `from` on changes nothing when no slab from there accepts the pointer |
| Slab.FreeStoresAtOffset | src/kernel/memory/slab.c:80-86 | an accepted pointer goes back into slot (ptr - start) / size of its slab, which is no longer full |
| Slab.PutAtHome | src/kernel/memory/slab.c:84-85 | storing an object in its own slot keeps the slab's slots at home |
| Slab.PutKeepsValid | src/kernel/memory/slab.c:83-85 | taking an accepted pointer back keeps the table valid |
| Slab.FreeKeepsValid | src/kernel/memory/slab.c:74-93 | slab_free keeps the table valid |
| Slab.AllocHandsOutOnce | src/kernel/memory/slab.c:63-71 | an object slab_alloc returns was offered by the table, and afterwards no slot holds it |
| Slab.SlotIsUnique | src/kernel/memory/slab.c:41-42 | in a valid table no two slots hold the same object |
| Slab.AllocTwiceDistinct | src/kernel/memory/slab.c:50-72 | two slab_allocs in a row never return the same object |
| Slab.AllocThenFreeRestores | src/kernel/memory/slab.c:50-93 | freeing the object slab_alloc just returned gives back the table as it was |
| Slab.FullSlabRefuses | src/kernel/memory/slab.c:61-67 | a full class, or one with no object left, gives NULL and is then marked full |
| Slab.PagesApart | src/kernel/memory/slab.c:36-38 | two different aligned pages are at least a page apart |
| Slab.InitIsValid | src/kernel/memory/slab.c:28-48 | after slab_init the table is valid and offers every object of every slab |
| Slab.InitialSlabHome | src/kernel/memory/slab.c:30-46 | a freshly laid out slab has its shape, and object j sits at start + j * size |
| Slab.BlocksApart | src/kernel/memory/slab.c:35-43 | the blocks of two different slabs do not overlap |
| Slab.SlabAllocator.constructor | src/kernel/memory/slab.c:5-7 | the zero-initialised statics |
| Slab.SlabAllocator.Init | src/kernel/memory/slab.c:28-48 | given the pages pmm_alloc(1) returns, the table is the initial layout: each page holds two slabs' blocks |
| Slab.SlabAllocator.InitSlab | src/kernel/memory/slab.c:30-46 | one outer turn lays out slab i and leaves the other slabs alone |
| Slab.SlabAllocator.Refill | src/kernel/memory/slab.c:36-39 | a NULL or exhausted carving pointer takes the next page |
| Slab.SlabAllocator.FindFreeObject | src/kernel/memory/slab.c:9-15 | the index of the first non-NULL slot of the slab, or -1 |
| Slab.SlabAllocator.Alloc | src/kernel/memory/slab.c:50-72 | the new table and the result are those of AllocSpec. Above 2048 bytes the request goes to pmm_alloc for ceil(size / PAGE_SIZE) pages |
| Slab.SlabAllocator.TryReturn | src/kernel/memory/slab.c:78-87 | slab i takes the pointer back exactly when it accepts it |
| Slab.SlabAllocator.Free | src/kernel/memory/slab.c:74-93 | the new table is FreeSpec of the old |
| VfsSpec.Truncate | src/kernel/fs/vfs.c:22 | strncpy(…, VFS_MAX_NAME - 1) into a zeroed node keeps a prefix of at most n characters, all of a shorter name |
| VfsSpec.ZeroPage | src/kernel/fs/vfs.c:131 | a page memset to 0: PAGE_SIZE zero bytes |
| VfsSpec.FreeFd | src/kernel/fs/vfs.c:44-51 | the lowest descriptor from `from` on that is not in use, or -1 exactly when all are in use |
| VfsSpec.DropSlashes | src/kernel/fs/vfs.c:57 | the path after its leading slashes, which are all gone |
| VfsSpec.ComponentLength | src/kernel/fs/vfs.c:63-70 | the index of the first '/', or the whole length; no slash before it |
| VfsSpec.FindChild | src/kernel/fs/vfs.c:168-180 | a child of that name when one exists, None exactly when none has it |
| VfsSpec.FindChildFirst | src/kernel/fs/vfs.c:171-177 | the child found is the first of that name in chain order |
| VfsSpec.ParentOf | src/kernel/fs/vfs.c:84 | the parent, or the node itself without one, inside the arena |
| VfsSpec.Step | src/kernel/fs/vfs.c:73-105 | a component leads to a node of the arena, or to nothing |
| VfsSpec.Resolve | src/kernel/fs/vfs.c:53-108 | a resolved path names a node of the arena |
| VfsSpec.Walk | src/kernel/fs/vfs.c:53-108 | taking components one after the other leads to a node of the arena, or to nothing |
| VfsSpec.ResolvePath | src/kernel/fs/vfs.c:261-271 | vfs_resolve_path names a node of the arena or nothing |
| VfsSpec.LastSlash | src/kernel/fs/vfs.c:288 | strrchr: the index of the last '/', None exactly when there is none |
| VfsSpec.WriteIntoPage | src/kernel/fs/vfs.c:134-144 | a write into an existing page keeps the node's size within the page and its links and name |
| VfsSpec.MemWrite | src/kernel/fs/vfs.c:125-145 | memfs_write keeps the file system well formed and adds no node |
| VfsSpec.Link | src/kernel/fs/vfs.c:191-193 | linking adds exactly one node |
| VfsSpec.LinkOk | src/kernel/fs/vfs.c:191-193 | linking a node whose parent is a directory keeps the arena well formed |
| VfsSpec.FdsGrow | src/kernel/fs/vfs.c:8 | descriptors valid for an arena stay valid for a larger one |
| VfsSpec.Create | src/kernel/fs/vfs.c:182-196 | memfs_create keeps the file system well formed and never drops a node or touches the descriptors |
| VfsSpec.ClearedFds | src/kernel/fs/vfs.c:216-221 | the cleared table has VFS_MAX_FDS descriptors |
| VfsSpec.AddReadme | src/kernel/fs/vfs.c:243-252 | the README.txt step keeps the file system well formed |
| VfsSpec.AddRoot | src/kernel/fs/vfs.c:228-234 | the root is the new last node of the arena |
| VfsSpec.Populate | src/kernel/fs/vfs.c:237-252 | the directories and README.txt keep the file system well formed |
| VfsSpec.Init | src/kernel/fs/vfs.c:214-259 | vfs_init leaves a well-formed file system |
| VfsSpec.OpenNode | src/kernel/fs/vfs.c:305-326 | the descriptor part of vfs_open keeps the file system well formed |
| VfsSpec.CreateForOpen | src/kernel/fs/vfs.c:279-303 | the O_CREAT part keeps the file system well formed, and the node found is in the arena |
| VfsSpec.Open | src/kernel/fs/vfs.c:273-327 | vfs_open keeps the file system well formed |
| VfsSpec.Release | src/kernel/fs/vfs.c:35-42 | vfs_destroy_node keeps the file system well formed, the descriptors and the arena's size |
| VfsSpec.Close | src/kernel/fs/vfs.c:329-343 | vfs_close keeps the file system well formed |
| VfsSpec.Read | src/kernel/fs/vfs.c:345-363 | vfs_read keeps the file system well formed |
| VfsSpec.Write | src/kernel/fs/vfs.c:365-392 | vfs_write keeps the file system well formed |
| VfsSpec.Mkdir | src/kernel/fs/vfs.c:425-458 | vfs_mkdir keeps the file system well formed |
| Vfs.Vfs.constructor | src/kernel/fs/vfs.c:8-13 | the zeroed statics: no nodes, free descriptors, no root, not initialised |
| Vfs.Vfs.AllocateFd | src/kernel/fs/vfs.c:44-51 | the scan's result is FreeFd from descriptor 3 |
| Vfs.Vfs.Lookup | src/kernel/fs/vfs.c:168-180 | the chain walk gives memfs_lookup's node |
| Vfs.Vfs.MemReaddir | src/kernel/fs/vfs.c:147-166 | the walk to the index-th child gives memfs_readdir's result and entry |
| Vfs.Vfs.Create | src/kernel/fs/vfs.c:182-196 | the new state and result are those of memfs_create on the old state |
| Vfs.Vfs.MemWrite | src/kernel/fs/vfs.c:125-145 | the new state and count are those of memfs_write |
| Vfs.Vfs.Init | src/kernel/fs/vfs.c:214-259 | the new state and result are those of vfs_init |
| Vfs.Vfs.AddReadme | src/kernel/fs/vfs.c:243-252 | the new state is the README.txt step |
| Vfs.Vfs.ResolvePath | src/kernel/fs/vfs.c:261-271 | the node vfs_resolve_path names |
| Vfs.Vfs.OpenNode | src/kernel/fs/vfs.c:305-326 | the descriptor part of vfs_open |
| Vfs.Vfs.CreateForOpen | src/kernel/fs/vfs.c:279-303 | the O_CREAT part of vfs_open |
| Vfs.Vfs.Open | src/kernel/fs/vfs.c:273-327 | the new state and result are those of vfs_open |
| Vfs.Vfs.Close | src/kernel/fs/vfs.c:329-343 | the new state and result are those of vfs_close |
| Vfs.Vfs.Read | src/kernel/fs/vfs.c:345-363 | the new state, result and bytes are those of vfs_read |
| Vfs.Vfs.Write | src/kernel/fs/vfs.c:365-392 | the new state and count are those of vfs_write |
| Vfs.Vfs.StatPath | src/kernel/fs/vfs.c:394-408 | the result and the size, type and permissions vfs_stat reports |
| Vfs.Vfs.Readdir | src/kernel/fs/vfs.c:410-423 | the result and entry vfs_readdir gives |
| Vfs.Vfs.Mkdir | src/kernel/fs/vfs.c:425-458 | the new state and result are those of vfs_mkdir |
| VfsProps.InitReservesStdio | src/kernel/fs/vfs.c:216-221 | after vfs_init exactly descriptors 0, 1 and 2 are in use, so the first handed out is 3 |
| VfsProps.JoinStart | src/kernel/fs/vfs.c:57 | a path of components joined by slashes does not start with a slash |
| VfsProps.ResolveSlash | src/kernel/fs/vfs.c:57 | an extra leading slash does not change what a path names |
| VfsProps.ResolveOnlySlashes | src/kernel/fs/vfs.c:57-60 | a path of slashes only, or the empty path, names the starting node |
| VfsProps.ComponentLengthAt | src/kernel/fs/vfs.c:63-70 | the component length is the index of the first slash |
| VfsProps.FirstComponent | src/kernel/fs/vfs.c:63-70 | the first component of c + "/" + rest is c |
| VfsProps.SplitAtSlash | src/kernel/fs/vfs.c:63-70 | the rest after the first component of c + "/" + rest is "/" + rest |
| VfsProps.ResolveJoin | src/kernel/fs/vfs.c:53-108 | resolving components joined by single slashes is taking them one after the other: "." stays, ".." climbs unless at the top, a name is the first child of that name, a missing one ends in NULL |
| VfsProps.DotAndDotDot | src/kernel/fs/vfs.c:73-90 | "." names the node itself; ".." its parent, or itself at the root |
| VfsProps.ReadCopies | src/kernel/fs/vfs.c:111-123 | nothing without a page or at or past the size; otherwise min(size, node size - offset) bytes from the offset |
| VfsProps.WriteThenRead | src/kernel/fs/vfs.c:125-145 | -1 exactly when the first write finds no page; otherwise min(size, PAGE_SIZE - offset) bytes are written, read back unchanged, the rest of the page is kept, the size grows to cover them, and no other node changes |
| VfsProps.CreateOutcome | src/kernel/fs/vfs.c:182-196 | success exactly for a directory parent without that name and with a page to spare; the new node then heads the child list and is found by its name, and nothing else changes |
| VfsProps.MkdirOutcome | src/kernel/fs/vfs.c:425-458 | success exactly when initialised, the part before the last slash resolves to a directory with directory operations, and memfs_create succeeds for the rest with a page besides the path copy's; the new directory then heads the parent's list and is found under the last component, one page is used and no other node changes; every failure changes nothing, with -EINVAL, -ENOMEM or -ENOTDIR as the C's checks order them |
| VfsProps.ReadWithoutFileOps | src/kernel/fs/vfs.c:353-355 | a node without file operations reads and writes as -ENOSYS |
| VfsProps.OpenExisting | src/kernel/fs/vfs.c:276-318 | vfs_open of a path that resolves opens that node at the lowest free descriptor from 3, at position 0, with its count up by one |
| VfsProps.OpenNodeOutcome | src/kernel/fs/vfs.c:305-323 | -EMFILE with nothing changed when all descriptors are used; otherwise the descriptor is filled, the count rises, and O_TRUNC empties a file |
| VfsProps.OpenFails | src/kernel/fs/vfs.c:274-305 | before vfs_init, or for a missing path without O_CREAT, vfs_open changes nothing |
| VfsProps.CloseOutcome | src/kernel/fs/vfs.c:329-343 | -EBADF with nothing changed for a bad descriptor; otherwise 0, the descriptor cleared and its node's count down by one as a uint32_t |
| VfsProps.OpenThenClose | src/kernel/fs/vfs.c:273-343 | opening an existing node and closing the descriptor leaves its reference count as it was |
| VfsProps.CloseOpened | src/kernel/fs/vfs.c:329-343 | closing the descriptor a successful vfs_open returned gives 0, clears that descriptor (the table is as before the open) and brings the node's count back |
| VfsProps.ReadAdvances | src/kernel/fs/vfs.c:345-363 | -EBADF for a bad descriptor; otherwise memfs_read's bytes at the position, which advances by their number |
| VfsProps.WriteAdvances | src/kernel/fs/vfs.c:365-392 | the bytes go to the position, or to the end with O_APPEND; the position then moves past them, to the new size with O_APPEND |
| VfsProps.ReaddirLists | src/kernel/fs/vfs.c:147-166 | vfs_readdir lists the children in chain order, then ends with 0 |
| VfsProps.InitLayout | src/kernel/fs/vfs.c:214-259 | with seven pages vfs_init succeeds: the root is a directory listing README.txt, proc, dev, tmp, home, and README.txt's size is the banner's length |
| VfsProps.InitDirectories | src/kernel/fs/vfs.c:237-240 | the four memfs_create calls on an empty root leave it listing proc, dev, tmp, home, four pages fewer |
| VfsProps.ReadmeStep | src/kernel/fs/vfs.c:243-252 | README.txt heads the root's list, and its size is the banner's length |
| VfsProps.CreateStep | src/kernel/fs/vfs.c:237-240 | one creation on the root prepends its name and takes one page |
| VfsProps.NamesPrepend | src/kernel/fs/vfs.c:188-193 | the child names after memfs_create's prepend are the new name followed by the old names |
| RamdiskSpec.Empty | src/kernel/ramdisk.c:7-9 | the zeroed statics are well formed and hold no file |
| RamdiskSpec.ReadCount | src/kernel/ramdisk.c:11-13 | the corrected count: nothing past the end, otherwise the request cut at the end of the file |
| RamdiskSpec.ReadCountsAgree | src/kernel/ramdisk.c:12-13 | when offset + size does not pass 2^32 the as-written count is the corrected one |
| RamdiskSpec.ReadCountWraps | src/kernel/ramdisk.c:13 | a ten-byte file read at 5 for 0xFFFFFFFF bytes: the uint32_t sum wraps to 4, so the whole size is kept instead of 5 |
| RamdiskSpec.ReadDir | src/kernel/ramdisk.c:22-25 | NULL exactly at or past ramdisk_count, otherwise that entry |
| RamdiskSpec.FindFrom | src/kernel/ramdisk.c:28-39 | the first registered node of that name, None exactly when there is none |
| RamdiskSpec.StoredName | src/kernel/ramdisk.c:47-48 | the copy loop keeps a prefix of at most MAX_FILENAME - 1 characters, all of a shorter name |
| RamdiskSpec.AddFile | src/kernel/ramdisk.c:42-62 | ramdisk_add_file keeps the tables well formed; the node's impl is the low 32 bits of the contents' address, as the uint32_t field keeps it |
| RamdiskSpec.ReadThroughPointer | src/kernel/ramdisk.c:15-18 | the intended read: through the whole address of contents in memory, the bytes copied are the contents from the offset, ReadCount of them |
| RamdiskSpec.ReadAsWrittenBelow | src/kernel/ramdisk.c:15-18 | the read as written takes byte k from impl plus the uint32_t index offset + k, wrapped, an address below 2 * 2^32; without the wrap that is impl + offset + k |
| RamdiskSpec.ReadIndexWraps | src/kernel/ramdisk.c:16-17 | the ten-byte file read at 5 for 0xFFFFFFFF bytes: the copy's uint32_t index offset + i wraps too, so byte 0xFFFFFFFB is read from impl itself |
| RamdiskSpec.ReadAsWrittenMisses | src/kernel/ramdisk.c:15-51 | contents at 2 * 2^32 or above, in memory zero elsewhere: every byte read through the truncated impl is 0, so the read differs from the contents |
| RamdiskSpec.WelcomeMisread | src/kernel/ramdisk.c:51-72 | welcome.txt linked in the higher half: its first seven bytes read as written are zeros, where the intended read gives "Welcome" |
| RamdiskSpec.Init | src/kernel/ramdisk.c:64-77 | ramdisk_init keeps the tables well formed |
| RamdiskSpec.AddThenFind | src/kernel/ramdisk.c:27-62 | a new short name is found at the index it was given; other names find what they found before |
| RamdiskSpec.FindAfterAdd | src/kernel/ramdisk.c:28-39 | the scan over one more node agrees with the old scan when that finds something, and otherwise tries the new node |
| RamdiskSpec.AddFileOutcome | src/kernel/ramdisk.c:42-62 | at 64 files nothing changes; otherwise node and entry go at the old count, with inode = count, and nothing else moves |
| RamdiskSpec.InitLayout | src/kernel/ramdisk.c:64-77 | from the zeroed statics: welcome.txt, admin.cfg and readme.md at 0, 1 and 2, a directory root, and admin.cfg's impl the low 32 bits of its literal's address |
| RamdiskSpec.ReadWithinFile | src/kernel/ramdisk.c:11-19 | a read never copies more than asked or past the file, and copies something when there is something left |
| Ramdisk.Read | src/kernel/ramdisk.c:11-20 | ReadCount bytes of the contents from the offset land in the buffer, the rest of the buffer is kept (the corrected read through the whole address, admitted under Left out with a Findings row) |
| Ramdisk.Ramdisk.constructor | src/kernel/ramdisk.c:7-9 | the zeroed statics |
| Ramdisk.Ramdisk.ReadDir | src/kernel/ramdisk.c:22-25 | ramdisk_readdir's entry |
| Ramdisk.Ramdisk.FindDir | src/kernel/ramdisk.c:27-40 | ramdisk_finddir's node |
| Ramdisk.Ramdisk.AddFile | src/kernel/ramdisk.c:42-62 | the new tables are AddFile of the old ones, impl the truncated address |
| Ramdisk.Ramdisk.Init | src/kernel/ramdisk.c:64-77 | the new tables and root are Init's |
| Ramdisk.SameName | src/kernel/ramdisk.c:30-37 | the comparison loop matches exactly when the two names are equal |
| Ramdisk.CopyName | src/kernel/ramdisk.c:46-48 | the copy loop stores StoredName |
| CString.CopyForward | src/kernel/lib/string.c:8-10 | the upward copy keeps the buffer's length |
| CString.CopyBackward | src/kernel/lib/string.c:29-31 | the downward copy keeps the buffer's length |
| CString.ForwardCopies | src/kernel/lib/string.c:3-12 | the upward copy is a true copy unless the destination starts inside the source |
| CString.ForwardOverlapSmears | src/kernel/lib/string.c:8-10 | copying 1, 2 over 2, 3 upwards gives 1, 1: the overlap repeats bytes |
| CString.BackwardCopies | src/kernel/lib/string.c:26-31 | the downward copy is a true copy when the destination starts after the source |
| CString.MoveSpec | src/kernel/lib/string.c:26-34 | memmove keeps the buffer's length |
| CString.MoveMoves | src/kernel/lib/string.c:22-36 | after memmove the destination holds the original source bytes, however they overlap, and nothing else changes |
| CString.MemCpy | src/kernel/lib/string.c:3-12 | memory becomes CopyForward of the old, and dest is returned |
| CString.MemMove | src/kernel/lib/string.c:22-36 | memory becomes MoveSpec of the old, and dest is returned |
| CString.Fill | src/kernel/lib/string.c:14-20 | n bytes from d are b, all others unchanged |
| CString.MemSet | src/kernel/lib/string.c:14-20 | n bytes set to (uint8_t)c, and s returned |
| CString.CompareFrom | src/kernel/lib/string.c:42-47 | the difference lies in -255..255 |
| CString.CompareFromMeaning | src/kernel/lib/string.c:38-48 | memcmp is 0 exactly when the n bytes agree; otherwise it is the difference at the first mismatch |
| CString.MemCmp | src/kernel/lib/string.c:38-48 | the loop's result is CompareFrom |
| CString.Length | src/kernel/lib/string.c:50-55 | the index of the first NUL |
| CString.Chars | src/kernel/lib/string.c:50-55 | a C string's characters hold no NUL |
| CString.StrLen | src/kernel/lib/string.c:50-55 | strlen is Length |
| CString.StrCpy | src/kernel/lib/string.c:57-61 | the characters and the NUL land at dest, nothing else changes, and dest is returned |
| CString.Span | src/kernel/lib/string.c:65 | the characters before the first NUL, at most n |
| CString.Padded | src/kernel/lib/string.c:63-72 | strncpy writes exactly n bytes |
| CString.PaddedTerminated | src/kernel/lib/string.c:63-72 | strncpy leaves dest unterminated exactly when the source has no NUL among its first n bytes |
| CString.StrNCpy | src/kernel/lib/string.c:63-72 | dest's n bytes become Padded, nothing else changes |
| CString.StrNCmpFrom | src/kernel/lib/string.c:83-91 | the difference lies in -255..255 |
| CString.StrNCmpMeaning | src/kernel/lib/string.c:82-92 | strncmp is 0 exactly when the strings agree on their first n characters; otherwise it is a[j] - b[j] at the first index j < n where they differ |
| CString.StrNCmpDifference | src/kernel/lib/string.c:84-91 | a nonzero strncmp is a[j] - b[j] at the first index j < n, within a's characters, where the two strings differ |
| CString.StrNCmp | src/kernel/lib/string.c:82-92 | the loop's result is StrNCmpFrom |
| CString.StrCmpFrom | src/kernel/lib/string.c:75-79 | the difference lies in -255..255 |
| CString.StrCmpIsStrNCmp | src/kernel/lib/string.c:74-92 | strcmp is strncmp with a bound past both strings |
| CString.StrCmpMeaning | src/kernel/lib/string.c:74-80 | strcmp is 0 exactly when the two strings are equal; otherwise it is a[j] - b[j] at the first index where they differ, the terminator of a included |
| CString.StrCmp | src/kernel/lib/string.c:74-80 | the loop's result is StrCmpFrom |
| CString.FindFromMeaning | src/kernel/lib/string.c:94-102 | strchr finds the first character equal to c, the terminator for c = 0, NULL otherwise |
| CString.StrChr | src/kernel/lib/string.c:94-102 | the loop's result is FindFrom |
| CString.LastBefore | src/kernel/lib/string.c:105-111 | the last match before i, or None exactly when none is before i |
| CString.StrRChr | src/kernel/lib/string.c:104-116 | the loop's result is FindLast |
| CString.FirstAndLast | src/kernel/lib/string.c:94-116 | strchr and strrchr both give the terminator for c = 0, fail together, strchr's is never after strrchr's, and the two agree exactly when c occurs at most once before the terminator |
| KString.KMemSet | src/kernel/libk/string.c:3-7 | n bytes set to (uint8_t)c, and s returned |
| KString.KMemCpy | src/kernel/libk/string.c:9-14 | a forward byte copy, and dest returned |
| KString.KStrLen | src/kernel/libk/string.c:16-20 | the bytes before the first NUL |
| Printk.DigitRoundTrip | src/kernel/lib/printk.c:35-59 | a digit's character reads back as the digit |
| Printk.DigitsRoundTrip | src/kernel/lib/printk.c:34-45 | the digits read back as the number |
| Printk.NoLeadingZero | src/kernel/lib/printk.c:34-37 | a positive number's digits start with a nonzero digit |
| Printk.DigitsLength | src/kernel/lib/printk.c:20-49 | a number below radix^k has at most k digits, so the buffers suffice |
| Printk.DivStep | src/kernel/lib/printk.c:35-36 | one step: the quotient is smaller, and quotient and remainder rebuild the number |
| Printk.DecTextRoundTrip | src/kernel/lib/printk.c:19-46 | print_dec's text reads back as the value, has no leading zero unless it is "0", and a '-' exactly for negatives |
| Printk.PositiveText | src/kernel/lib/printk.c:34-45 | a positive value's text reads back and starts with a nonzero digit |
| Printk.NegativeText | src/kernel/lib/printk.c:24-27 | a negative value's text reads back and starts with '-' |
| Printk.HexTextRoundTrip | src/kernel/lib/printk.c:48-67 | print_hex's text is "0x" and digits that read back as the value, with no leading zero |
| Printk.Text | src/kernel/lib/printk.c:13-17 | a C string's characters hold no NUL |
| Printk.PrintStr | src/kernel/lib/printk.c:13-17 | print_str sends the characters up to the NUL |
| Printk.EmitDigits | src/kernel/lib/printk.c:34-45 | the buffer loop and the back-to-front loop send the digits most significant first |
| Printk.PrintDec | src/kernel/lib/printk.c:19-46 | print_dec sends DecText |
| Printk.PrintHex | src/kernel/lib/printk.c:48-67 | print_hex sends HexText |
| Printk.PlainFormat | src/kernel/lib/printk.c:73-111 | a format without '%' is sent verbatim, whatever the arguments |
| Printk.PercentAndUnknown | src/kernel/lib/printk.c:98-105 | "%%" sends '%', and an unknown conversion sends '%' and its character, using no argument |
| Printk.DecimalList | src/kernel/lib/printk.c:87-91 | n "%d" conversions send the n decimal texts one after another |
| Printk.Convert | src/kernel/lib/printk.c:76-106 | one conversion sends the text Conversion gives for the argument |
| Printk.Step | src/kernel/lib/printk.c:73-110 | one turn sends a plain character or one '%' sequence, consuming at least one format character; what it sends and what follows make up the whole |
| Printk.PrintK | src/kernel/lib/printk.c:69-114 | printk sends the format with each conversion replaced by its text |
| KMath.PowSquare | src/kernel/libk/math.c:13 | (b * b)^k == b^(2k) |
| KMath.SquareStep | src/kernel/libk/math.c:11-20 | each squaring step keeps temp * base^exponent |
| KMath.ScaleUp | src/kernel/libk/math.c:16 | a positive factor moves a nonzero number away from zero |
| KMath.NotSquare | src/kernel/libk/math.c:13 | 2^31 is not a square, so no int32 square reaches INT32_MIN's magnitude |
| KMath.StepFits | src/kernel/libk/math.c:11-20 | while the result fits, neither product of a turn overflows int32 |
| KMath.KPow | src/kernel/libk/math.c:3-22 | with an int32 result, no operation overflows and k_pow is the power converted to uint32_t |
| KMath.PowZeroBase | src/kernel/libk/math.c:21 | 0^k == 0 for k >= 1 |
| KMath.PowOne | src/kernel/libk/math.c:7 | 1^k == 1 |
| KMath.PowMinusOne | src/kernel/libk/math.c:7 | (-1)^k alternates with the parity of k |
| KMath.NegativeExponent | src/kernel/libk/math.c:5-9 | a negative exponent: base 0 gives 0, 1 gives 1, -1 alternates, every other base gives 0 as 1 / base truncates to 0 |
| Ps2.DeltaIsNineBit | src/kernel/drivers/input/keyboard.c:270-275 | the intended movement is the 9-bit two's complement value: in [-256, 255], its low byte is the packet byte, negative exactly when the sign bit is set |
| Ps2.DeltaOnto | src/kernel/mouse.c:54-58 | every 9-bit movement comes from exactly one byte and sign bit |
| Ps2.DriverDeltaMisreads | src/kernel/drivers/input/keyboard.c:270-275 | the as-written decoding reads byte 0xF0 with the sign bit clear as -16, where the movement is +240 |
| Ps2.DriverDeltaAgreement | src/kernel/drivers/input/keyboard.c:270-275 | the as-written decoding is right exactly for bytes below 0x80 or with the sign bit set |
| Ps2.MouseDeltaMisreads | src/kernel/mouse.c:54-58 | the as-written decoding reads 0xFF with the sign bit set as -257 (intended -1) and 0xC8 with it clear as -56 (intended +200) |
| Ps2.MouseDeltaAgreement | src/kernel/mouse.c:54-58 | the as-written decoding is right exactly for bytes below 0x80 |
| Keyboard.ScanEffect | src/kernel/keyboard.c:26-45 | a release or a scancode past the 58-entry map leaves last_key alone; a press in the map stores the map's entry |
| Keyboard.ModifierPressClears | src/kernel/keyboard.c:13-32 | left ctrl and left shift have map entry 0, so their press overwrites an unread key with 0 |
| Keyboard.PressThenRelease | src/kernel/keyboard.c:30-32 | a press followed by its release leaves the pressed key |
| Keyboard.Keyboard.constructor | src/kernel/keyboard.c:17 | last_key starts at 0 |
| Keyboard.Keyboard.Handler | src/kernel/keyboard.c:26-45 | keyboard_handler stores AfterScan of the scancode |
| Keyboard.Keyboard.GetLastKey | src/kernel/keyboard.c:19-23 | returns the key and consumes it |
| KeyInput.Buffered | src/kernel/drivers/input/keyboard.c:24-28 | the characters between tail and head, oldest first, (head - tail) mod 256 of them |
| KeyInput.Put | src/kernel/drivers/input/keyboard.c:115-121 | keyboard_buffer_put keeps the ring well formed |
| KeyInput.Get | src/kernel/drivers/input/keyboard.c:123-131 | keyboard_get_key keeps the ring well formed |
| KeyInput.PutAppends | src/kernel/drivers/input/keyboard.c:115-121 | at most 255 characters are ever buffered; a put appends c unless 255 are buffered, and then changes nothing |
| KeyInput.PutSlot | src/kernel/drivers/input/keyboard.c:118-119 | after a put with room, the buffered characters are the old ones followed by c |
| KeyInput.PutCount | src/kernel/drivers/input/keyboard.c:116-119 | a put with room buffers one more character |
| KeyInput.RingCount | src/kernel/drivers/input/keyboard.c:116-129 | the buffered count without the modulus |
| KeyInput.RingSlot | src/kernel/drivers/input/keyboard.c:116-117 | slot tail + k is head exactly when k is the buffered count |
| KeyInput.GetTakesOldest | src/kernel/drivers/input/keyboard.c:123-131 | an empty buffer gives 0 and changes nothing; otherwise the oldest character comes out and is removed |
| KeyInput.GetCount | src/kernel/drivers/input/keyboard.c:128-129 | a get on a nonempty buffer leaves one character fewer |
| KeyInput.GetSlot | src/kernel/drivers/input/keyboard.c:128-129 | after a get, each buffered character is the one that was one place later |
| KeyInput.ModShift | src/kernel/drivers/input/keyboard.c:129 | advancing tail by one and then k is advancing it by k + 1, modulo 256 |
| KeyInput.FirstInFirstOut | src/kernel/drivers/input/keyboard.c:115-131 | on an empty buffer two puts are read back by two gets in the same order |
| KeyInput.ModifiersTrackAndLocksToggle | src/kernel/drivers/input/keyboard.c:133-153 | shift, ctrl and alt follow the key; caps and num lock toggle on a press and ignore a release |
| KeyInput.LockTwiceAndFunctionKeys | src/kernel/drivers/input/keyboard.c:145-168 | pressing a lock twice restores the state; the function keys change no modifier |
| KeyInput.CtrlLetters | src/kernel/drivers/input/keyboard.c:194-207 | with ctrl held a letter key gives its position in the alphabet, from the table shift xor caps selects |
| KeyInput.CtrlA | src/kernel/drivers/input/keyboard.c:203-204 | Ctrl+A (scancode 0x1E) gives 1 |
| KeyInput.ShiftXorCaps | src/kernel/drivers/input/keyboard.c:194-200 | shift and caps lock cancel; without ctrl exactly one of them selects the upper table |
| KeyInput.KeyEvent | src/kernel/drivers/input/keyboard.c:171-219 | keyboard_handler_c keeps the ring well formed |
| KeyInput.SpecialKeysNotBuffered | src/kernel/drivers/input/keyboard.c:179-186 | a modifier, lock or function key, pressed or released, changes only the modifiers |
| KeyInput.IgnoredKeys | src/kernel/drivers/input/keyboard.c:173-209 | no data, a regular key's release, a scancode past the table or a key without a character change nothing |
| KeyInput.RegularKeyBuffered | src/kernel/drivers/input/keyboard.c:192-212 | a regular key press appends its translated character when it has one and there is room |
| KeyInput.ClampTo | src/kernel/drivers/input/keyboard.c:282-285 | the clamp lands in [0, limit - 1] and leaves a value already there alone |
| KeyInput.MouseEvent | src/kernel/drivers/input/keyboard.c:245-301 | mouse_handler_c keeps the cycle below 3 and the three-byte packet |
| KeyInput.MouseStaysOnScreen | src/kernel/drivers/input/keyboard.c:277-285 | a processed packet leaves the pointer inside 1920 x 1080, and an on-screen pointer stays on screen |
| KeyInput.MouseWaitsForThirdByte | src/kernel/drivers/input/keyboard.c:251-260 | position and buttons change only on the third byte; a first byte without bit 0x08 is dropped |
| KeyInput.MousePacket | src/kernel/drivers/input/keyboard.c:251-285 | three bytes, the first with bit 0x08, return the cycle to 0 and process exactly those bytes |
| KeyInput.Driver.constructor | src/kernel/drivers/input/keyboard.c:17-37 | the static initialisers: no modifier, an empty ring, the pointer at (400, 300) |
| KeyInput.Driver.Init | src/kernel/drivers/input/keyboard.c:350-356 | keyboard_init empties the ring |
| KeyInput.Driver.BufferPut | src/kernel/drivers/input/keyboard.c:115-121 | the new state is Put of the old |
| KeyInput.Driver.GetKey | src/kernel/drivers/input/keyboard.c:123-131 | the result and the new state are Get of the old |
| KeyInput.Driver.HandleSpecialKey | src/kernel/drivers/input/keyboard.c:133-169 | the modifiers become Special of the old ones |
| KeyInput.Driver.KeyboardHandler | src/kernel/drivers/input/keyboard.c:171-219 | the new state is KeyEvent of the old |
| KeyInput.Driver.MouseHandler | src/kernel/drivers/input/keyboard.c:245-301 | the mouse state becomes MouseEvent of the old |
| KeyInput.Driver.ProcessPacket | src/kernel/drivers/input/keyboard.c:265-285 | the mouse state becomes Process of the old, with the intended 9-bit movement |
| Mouse.ClampOnScreen | src/kernel/mouse.c:67-70 | with a framebuffer of a real size the clamp lands on a pixel and leaves a pixel coordinate alone |
| Mouse.Bit | src/kernel/mouse.c:50-52 | bit k of a byte is 0 or 1 |
| Mouse.Step | src/kernel/mouse.c:37-79 | mouse_handler keeps the cycle below 3 |
| Mouse.StepStaysOnScreen | src/kernel/mouse.c:64-71 | with a framebuffer, an on-screen pointer stays on screen |
| Mouse.StepCycles | src/kernel/mouse.c:39-46 | a byte without status bits 0x01 and 0x20 changes nothing; otherwise it is stored and the cycle counts 0, 1, 2, 0, the first two bytes leaving position and buttons alone |
| Mouse.OverflowDiscarded | src/kernel/mouse.c:48 | a packet with an overflow bit changes nothing else |
| Mouse.PacketMoves | src/kernel/mouse.c:50-61 | without overflow, the buttons are bits 0-2 of the first byte and, without a framebuffer, the pointer moves by the 9-bit movements with Y inverted |
| Mouse.Mouse.constructor | src/kernel/mouse.c:9-11 | the zeroed statics |
| Mouse.Mouse.Handler | src/kernel/mouse.c:37-79 | the new state is Step of the old |
| Mouse.Mouse.CompletePacket | src/kernel/mouse.c:45-72 | the new state is Complete of the old, with the intended 9-bit movement |
| WmSpec.Empty | src/kernel/gui/window.c:9-12 | the statics hold a full table of free slots |
| WmSpec.Init | src/kernel/gui/window.c:25-32 | wm_init leaves a full table |
| WmSpec.FindFrom | src/kernel/gui/window.c:187-192 | the first slot from `from` on with the id; None exactly when no such slot exists |
| WmSpec.Get | src/kernel/gui/window.c:186-193 | wm_get_window finds the first slot with the id, and NULL exactly when no slot has it |
| WmSpec.MaxZ | src/kernel/gui/window.c:176-181 | the max_z loop: no live window is above it, and it is 0 or some live window's z_order |
| WmSpec.FirstVisible | src/kernel/gui/window.c:113-118 | the first live, visible slot; None exactly when there is none |
| WmSpec.FocusedSlot | src/kernel/gui/window.c:162-163 | when found, the slot of focused_window, which is nonzero |
| WmSpec.WithVisible | src/kernel/gui/window.c:153 | `flags \| VISIBLE` sets VISIBLE and no other bit |
| WmSpec.WithoutVisible | src/kernel/gui/window.c:151 | `flags & ~VISIBLE` clears VISIBLE and no other bit |
| WmSpec.WithFocused | src/kernel/gui/window.c:172 | `flags \| FOCUSED` sets FOCUSED and no other bit |
| WmSpec.WithoutFocused | src/kernel/gui/window.c:165 | `flags & ~FOCUSED` clears FOCUSED and no other bit |
| WmSpec.MoveFocus | src/kernel/gui/window.c:161-173 | the table keeps its size |
| WmSpec.Focus | src/kernel/gui/window.c:158-184 | wm_focus_window keeps a full table |
| WmSpec.Title | src/kernel/gui/window.c:54-59 | the stored title fits in the 256-byte field with its NUL |
| WmSpec.Create | src/kernel/gui/window.c:34-90 | wm_create_window keeps a full table |
| WmSpec.Placed | src/kernel/gui/window.c:39-76 | the table keeps its size |
| WmSpec.Destroy | src/kernel/gui/window.c:92-123 | wm_destroy_window keeps a full table |
| WmSpec.Move | src/kernel/gui/window.c:125-132 | wm_move_window keeps a full table |
| WmSpec.Resize | src/kernel/gui/window.c:134-142 | wm_resize_window keeps a full table |
| WmSpec.SetState | src/kernel/gui/window.c:144-156 | wm_set_window_state keeps a full table |
| WmSpec.LiveSlots | src/kernel/gui/window.c:245-249 | the first loop of wm_render_all lists every live slot, only live slots, in increasing order |
| WmSpec.Candidates | src/kernel/gui/window.c:277-281 | slot i is a candidate exactly when it is live, visible, not minimised and contains the point |
| WmSpec.HitFrom | src/kernel/gui/window.c:275-289 | the selected slot is in the table |
| WmSpec.Hit | src/kernel/gui/window.c:272-289 | the selected slot is in the table |
| WmSpec.Click | src/kernel/gui/window.c:268-308 | wm_handle_mouse_click keeps a full table |
| WmSpec.Drawn | src/kernel/gui/window.c:195-236 | wm_render_window changes nothing of the window but its redraw mark |
| WmSpec.Rendered | src/kernel/gui/window.c:263-265 | rendering keeps the table's size |
| WmSpec.SortedIsRenderOrder | src/kernel/gui/window.c:251-265 | the live slots sorted by z_order, ties in slot order, are drawn back to front |
| WmSpec.BubbleStep | src/kernel/gui/window.c:254-258 | one compare-and-swap keeps the permutation, the sorted tail and the slot order of equal z_orders, and moves the larger z_order up |
| WmSpec.PassDone | src/kernel/gui/window.c:253-259 | after a pass the sorted tail grows by one |
| WmSpec.RenderOrderCovers | src/kernel/gui/window.c:245-265 | a render order lists exactly the live slots |
| WmSpec.SwapStable | src/kernel/gui/window.c:254 | swapping only on a strictly higher z_order keeps equal z_orders in slot order |
| WmSpec.InitOutcome | src/kernel/gui/window.c:25-32 | after wm_init every slot is free, ids start at 1, nothing is focused, and a click hits nothing |
| WmSpec.FocusMissing | src/kernel/gui/window.c:159-160 | focusing a missing id changes nothing |
| WmSpec.FocusFlags | src/kernel/gui/window.c:161-173 | the target becomes focused_window and gains FOCUSED; the previously focused window in another slot loses it; both are marked for redraw |
| WmSpec.FocusTarget | src/kernel/gui/window.c:170-182 | of the target only the flags, the redraw mark and z_order change |
| WmSpec.FocusTargetFlags | src/kernel/gui/window.c:172 | of the target's flags only FOCUSED changes |
| WmSpec.MoveFocusKeeps | src/kernel/gui/window.c:161-173 | moving the focus flags changes no id and no z_order |
| WmSpec.FocusFrame | src/kernel/gui/window.c:158-184 | no id changes, no other window's z_order, and no window but the two whose focus changes |
| WmSpec.FocusTopmost | src/kernel/gui/window.c:175-182 | unless the highest z_order is already 2^32 - 1, the target ends strictly above every other live window |
| WmSpec.FocusKeepsIds | src/kernel/gui/window.c:158-184 | wm_focus_window keeps the ids unique |
| WmSpec.CreateResult | src/kernel/gui/window.c:36-89 | 0 and no change before wm_init or with every slot taken; otherwise the result is next_window_id |
| WmSpec.PlacedFound | src/kernel/gui/window.c:39-52 | with unique ids the new window is found under its id in the first free slot, the only slot that changes |
| WmSpec.CreateWindow | src/kernel/gui/window.c:43-59 | the lowest free slot gets a NORMAL window with the geometry, the title and owner 1 |
| WmSpec.CreateFlags | src/kernel/gui/window.c:50-79 | its flags are the given ones with VISIBLE and FOCUSED set |
| WmSpec.CreateFocused | src/kernel/gui/window.c:43-84 | the new window has the focus, is found under the returned id, and that id is above every other live id |
| WmSpec.CreateOnTop | src/kernel/gui/window.c:48-79 | unless next_window_id or the highest z_order is about to wrap, the new window ends on top |
| WmSpec.CreateKeepsIds | src/kernel/gui/window.c:43 | the ids stay unique until next_window_id would wrap |
| WmSpec.DestroyMissing | src/kernel/gui/window.c:93-122 | destroying an unknown id changes nothing |
| WmSpec.DestroyOutcome | src/kernel/gui/window.c:93-110 | the first slot with the id is cleared; every other id is kept; without the focus nothing else changes |
| WmSpec.DestroyRefocus | src/kernel/gui/window.c:110-119 | when the destroyed window had the focus, it passes to the lowest visible window left, now FOCUSED, or to nobody |
| WmSpec.FocusFinds | src/kernel/gui/window.c:158-193 | after focusing a window wm_get_window finds it in the same slot, FOCUSED |
| WmSpec.DestroyRemoves | src/kernel/gui/window.c:92-123 | with unique ids the window is gone afterwards and the ids stay unique |
| WmSpec.MoveOutcome | src/kernel/gui/window.c:125-132 | the one window found gets the position and the redraw mark; nothing else changes; a missing id changes nothing |
| WmSpec.ResizeOutcome | src/kernel/gui/window.c:134-142 | only a RESIZABLE window found changes size, and is marked for redraw; otherwise nothing changes |
| WmSpec.SetStateOutcome | src/kernel/gui/window.c:144-156 | the window found gets the state and is VISIBLE exactly when the state is not MINIMIZED |
| WmSpec.HitTopmost | src/kernel/gui/window.c:272-289 | the click selects the clickable window with the highest z_order, the lowest slot among equals, if that is above 0; nothing exactly when every clickable window has z_order 0 |
| WmSpec.HitFromTopmost | src/kernel/gui/window.c:275-289 | the loop from slot i keeps the best candidate so far |
| WmSpec.ClickEffect | src/kernel/gui/window.c:268-308 | with unique ids: no left button or no hit changes nothing; the close box removes the window; elsewhere the window gets the focus and goes on top; ids stay unique |
| WindowManager.WindowManager.constructor | src/kernel/gui/window.c:9-12 | the statics |
| WindowManager.WindowManager.Init | src/kernel/gui/window.c:25-32 | the new state is Init's |
| WindowManager.WindowManager.GetWindow | src/kernel/gui/window.c:186-193 | the search finds Get's slot |
| WindowManager.WindowManager.FocusWindow | src/kernel/gui/window.c:158-184 | the new state is Focus of the old |
| WindowManager.WindowManager.MoveFocusFlags | src/kernel/gui/window.c:161-173 | the table becomes MoveFocus of the old |
| WindowManager.WindowManager.HighestZ | src/kernel/gui/window.c:176-181 | the loop computes MaxZ |
| WindowManager.WindowManager.CreateWindow | src/kernel/gui/window.c:34-90 | the new state and the id are Create's |
| WindowManager.WindowManager.DestroyWindow | src/kernel/gui/window.c:92-123 | the new state is Destroy of the old |
| WindowManager.WindowManager.FirstVisibleSlot | src/kernel/gui/window.c:113-118 | the loop finds FirstVisible |
| WindowManager.WindowManager.MoveWindow | src/kernel/gui/window.c:125-132 | the new state is Move of the old |
| WindowManager.WindowManager.ResizeWindow | src/kernel/gui/window.c:134-142 | the new state is Resize of the old |
| WindowManager.WindowManager.SetWindowState | src/kernel/gui/window.c:144-156 | the new state is SetState of the old |
| WindowManager.WindowManager.RenderAll | src/kernel/gui/window.c:238-266 | before wm_init nothing; otherwise the windows are drawn in a render order (back to front), each drawn window losing its redraw mark |
| WindowManager.WindowManager.LiveList | src/kernel/gui/window.c:245-249 | the loop lists LiveSlots |
| WindowManager.WindowManager.DrawAll | src/kernel/gui/window.c:263-265 | the table becomes Rendered of the old |
| WindowManager.WindowManager.HandleMouseClick | src/kernel/gui/window.c:268-308 | the new state is Click of the old |
| WindowManager.WindowManager.HitTest | src/kernel/gui/window.c:272-289 | the loop finds Hit's slot |
| WindowManager.SortByZ | src/kernel/gui/window.c:251-260 | the bubble sort returns a permutation of the live slots sorted by z_order, equal z_orders in slot order |
| WindowManager.BubblePass | src/kernel/gui/window.c:253-259 | one pass keeps the permutation and stability and moves the highest z_order below hi to hi - 1 |
| AppSpec.Empty | src/kernel/app/framework.c:10-12 | the statics before app_framework_init: no slot used, ids from 1, not initialised; well formed |
| AppSpec.Init | src/kernel/app/framework.c:14-18 | app_framework_init's registry is well formed |
| AppSpec.FreeFrom | src/kernel/app/framework.c:32-33 | the register loop finds the first empty slot from `from` on, and none exactly when every later slot is taken |
| AppSpec.FindFrom | src/kernel/app/framework.c:50-51 | the first slot from `from` on pointing to an application with the id, and none exactly when no such slot exists |
| AppSpec.Register | src/kernel/app/framework.c:29-47 | app_register keeps the registry well formed |
| AppSpec.Get | src/kernel/app/framework.c:87-94 | app_get returns an application carrying the id, and NULL exactly when no slot holds one |
| AppSpec.Unregister | src/kernel/app/framework.c:49-67 | app_unregister keeps the registry and the window manager well formed |
| AppSpec.WindowOrigin | src/kernel/app/framework.c:99 | the window origin is 100 + 30 * app_id whenever that fits in 32 bits (it wraps otherwise) |
| AppSpec.CreateWindow | src/kernel/app/framework.c:96-109 | app_create_window keeps the registry and the window manager well formed |
| AppSpec.InitOutcome | src/kernel/app/framework.c:14-18 | after app_framework_init the framework is initialised, the next id is 1, ids are unique and app_get finds nothing |
| AppSpec.RegisterOutcome | src/kernel/app/framework.c:29-47 | 0 and no change before init, for NULL or with all 32 slots taken; otherwise the first empty slot points to the application, which gets the old next_app_id as id and returns it |
| AppSpec.RegisterKeepsIds | src/kernel/app/framework.c:34-35 | registering an unregistered application keeps ids unique while next_app_id does not wrap; the new id is above every other and app_get finds the application under it |
| AppSpec.GetRegistered | src/kernel/app/framework.c:87-94 | app_get only finds registered applications, and with unique ids it finds every registered one under its id |
| AppSpec.UnregisterOutcome | src/kernel/app/framework.c:49-67 | an unknown id changes nothing; otherwise the first matching slot is emptied and the main window, if nonzero, is destroyed in the window manager |
| AppSpec.UnregisterRemoves | src/kernel/app/framework.c:49-67 | with unique ids, after app_unregister(id) app_get finds nothing under the id and ids stay unique |
| AppSpec.CreateWindowMain | src/kernel/app/framework.c:96-109 | 0 for NULL; otherwise wm_create_window at (100 + 30 * id) on both axes with the four application flags, and the result becomes main_window_id only while that is 0; nothing else in the registry changes |
| AppSpec.MainWindowKept | src/kernel/app/framework.c:104-106 | once an application has a main window, a further app_create_window leaves it in place |
| AppFramework.Framework.constructor | src/kernel/app/framework.c:10-12 | the statics before init, over the given records and window manager |
| AppFramework.Framework.Init | src/kernel/app/framework.c:14-18 | the new registry is AppSpec.Init of the old |
| AppFramework.Framework.Register | src/kernel/app/framework.c:29-47 | the loop over the slots gives AppSpec.Register's registry and id |
| AppFramework.Framework.Find | src/kernel/app/framework.c:50-51 | the slot loop finds FindFrom's first matching slot |
| AppFramework.Framework.Get | src/kernel/app/framework.c:87-94 | returns AppSpec.Get's application |
| AppFramework.Framework.Unregister | src/kernel/app/framework.c:49-67 | registry and window manager become AppSpec.Unregister of the old ones |
| AppFramework.Framework.CreateWindow | src/kernel/app/framework.c:96-109 | registry, window manager and result are AppSpec.CreateWindow's |
| SchedSpec.Empty | src/kernel/sched/scheduler.c:15-17 | the zeroed task table is well formed |
| SchedSpec.Init | src/kernel/sched/scheduler.c:23-31 | scheduler_init's table is well formed |
| SchedSpec.Create | src/kernel/sched/scheduler.c:33-65 | task_create keeps the table well formed |
| SchedSpec.Schedule | src/kernel/sched/scheduler.c:67-82 | schedule keeps the table well formed |
| SchedSpec.ScheduleTimes | src/kernel/sched/scheduler.c:67-82 | any number of schedule calls keeps the table well formed |
| SchedSpec.InitOutcome | src/kernel/sched/scheduler.c:23-31 | one task, pid 0, running and current; schedule then leaves it in place (nothing to switch to) |
| SchedSpec.CreateOutcome | src/kernel/sched/scheduler.c:33-42 | nothing at MAX_TASKS (10); otherwise task count gets pid count and state 0, and without a page the count stays though pid and state were written |
| SchedSpec.CreateFrame | src/kernel/sched/scheduler.c:44-63 | with a page, stack_ptr is 56 bytes below the page's top, the six words from it are 0, the seventh is the entry address, and the count grows by one |
| SchedSpec.ScheduleCycles | src/kernel/sched/scheduler.c:67-82 | with n > 1 tasks, k <= n calls move the current task k places on, wrapping to 0 past the last |
| SchedSpec.ModOnce | src/kernel/sched/scheduler.c:70 | the `% task_count` of an index below twice the count subtracts it at most once |
| SchedSpec.ScheduleRoundTrip | src/kernel/sched/scheduler.c:67-82 | task_count calls of schedule return to the starting task (round robin) |
| Scheduler.Scheduler.constructor | src/kernel/sched/scheduler.c:15-17 | the zeroed task table |
| Scheduler.Scheduler.Init | src/kernel/sched/scheduler.c:23-31 | the new table is SchedSpec.Init of the old |
| Scheduler.Scheduler.Create | src/kernel/sched/scheduler.c:33-65 | the new table and the page's words are SchedSpec.Create's |
| Scheduler.Scheduler.Schedule | src/kernel/sched/scheduler.c:67-82 | the new table is SchedSpec.Schedule of the old |
| UserSpec.Empty | src/kernel/user.c:4-6 | the empty account table is well formed |
| UserSpec.Diff | src/kernel/user.c:9-15 | k_strcmp is 0 exactly when the strings are equal |
| UserSpec.DiffAtFirst | src/kernel/user.c:9-15 | at the first differing position the result is the difference of the unsigned bytes there, a terminator counting as 0 |
| UserSpec.Register | src/kernel/user.c:26-34 | user_register keeps the table well formed |
| UserSpec.Match | src/kernel/user.c:37-42 | the first account from `from` on with both name and password, none exactly when no account matches, and no earlier match |
| UserSpec.Login | src/kernel/user.c:36-45 | user_login keeps the table well formed |
| UserSpec.Init | src/kernel/user.c:21-24 | user_init keeps the table well formed |
| UserSpec.RegisterOutcome | src/kernel/user.c:26-34 | a full table (MAX_USERS) changes nothing and returns 0; otherwise 1, the account at the old count is active with the given name and password, earlier accounts kept |
| UserSpec.RegisterThenLogin | src/kernel/user.c:26-45 | after a successful user_register, user_login with that pair returns 1 and picks the first account with both, the new one unless an earlier one matched |
| UserSpec.MatchExtends | src/kernel/user.c:37-42 | appending an account does not change an earlier match, and adds the new one when none existed |
| UserSpec.DuplicateNamesKept | src/kernel/user.c:26-34 | a name already taken is accepted again: two accounts then carry it |
| UserSpec.InitAdmin | src/kernel/user.c:21-24 | from the empty table user_init leaves one active account "admin" / "1234", and only that pair logs in |
| UserDb.KStrcmp | src/kernel/user.c:9-15 | the loop returns Diff, the difference at the first mismatch |
| UserDb.Users.constructor | src/kernel/user.c:4-6 | the empty table |
| UserDb.Users.Register | src/kernel/user.c:26-34 | table and result are UserSpec.Register's; k_strcpy copies the name and password with their terminators |
| UserDb.Users.Login | src/kernel/user.c:36-45 | table and result are UserSpec.Login's |
| UserDb.Users.Init | src/kernel/user.c:21-24 | the new table is UserSpec.Init of the old |
| SyscallSpec.ValidUserPointer | src/kernel/syscall.c:17-29 | true exactly when the pointer is non-NULL, below 0xffff800000000000, and pointer + size does not wrap 64 bits |
| SyscallSpec.Table | src/kernel/syscall.c:244-256 | syscall_init's table has 256 slots |
| SyscallSpec.Init | src/kernel/syscall.c:242-264 | syscall_init keeps the state well formed |
| SyscallSpec.AbiVersion | src/kernel/syscall.c:128-130 | sys_paradox_version is 0x10000 (ABI 1.0.0) |
| SyscallSpec.InfoBytes | src/kernel/syscall.c:146-151 | sys_paradox_info writes 34 bytes: four numbers and "ParadoxOS" with its NUL |
| SyscallSpec.SysWrite | src/kernel/syscall.c:70-93 | sys_write keeps the state well formed |
| SyscallSpec.SysInfo | src/kernel/syscall.c:140-154 | sys_paradox_info keeps the state well formed |
| SyscallSpec.Dispatch | src/kernel/syscall.c:157-205 | running a wrapper keeps the state well formed |
| SyscallSpec.Handle | src/kernel/syscall.c:208-240 | syscall_handler keeps the state well formed |
| SyscallSpec.RangeEndUnchecked | src/kernel/syscall.c:22-26 | a range starting just below kernel space and running into it is accepted: only the start is compared with the boundary |
| SyscallSpec.InitTable | src/kernel/syscall.c:242-257 | after syscall_init exactly the numbers 0, 1, 2, 3, 4, 5, 18, 39, 100 and 101 have their wrappers, and errno, console and memory are unchanged |
| SyscallSpec.HandleOutcome | src/kernel/syscall.c:208-240 | a number of 256 or more, or an empty slot, gives -1 with ENOSYS and nothing else changed; otherwise the slot's wrapper runs after errno is cleared |
| SyscallSpec.ErrnoOnlyOnFailure | src/kernel/syscall.c:208-240 | after a call errno is nonzero only when the result is -1, it is one of the four error codes or 0, and the table is unchanged |
| SyscallSpec.AfterInit | src/kernel/syscall.c:117-130 | after syscall_init call 100 returns 0x10000, call 18 returns 1, and an unregistered number is ENOSYS |
| SyscallSpec.ReadWriteChecks | src/kernel/syscall.c:54-93 | a bad buffer is EFAULT whatever the fd; a good one with a negative fd is EBADF; otherwise read returns 0 and write returns count (as int64), printing the buffer only for fds 1 and 2 |
| SyscallSpec.WriteEchoesBuffer | src/kernel/syscall.c:82-88 | the bytes sys_write appends to the console are the buffer's, in order |
| SyscallSpec.OpenFails | src/kernel/syscall.c:95-105 | sys_open returns -1: EFAULT exactly when the path is not a NUL-terminated string within 4096 bytes of user memory, ENOENT otherwise |
| SyscallSpec.CloseOutcome | src/kernel/syscall.c:107-115 | sys_close: -1 with EBADF exactly for a negative fd, otherwise 0 |
| SyscallSpec.InfoAbiVersion | src/kernel/syscall.c:147 | abi_version reads back as the ABI version |
| SyscallSpec.InfoKernelVersion | src/kernel/syscall.c:148 | kernel_version reads back as 0x010000 |
| SyscallSpec.InfoMemory | src/kernel/syscall.c:149-150 | total_memory reads back as 256 MiB and free_memory as 128 MiB |
| SyscallSpec.InfoName | src/kernel/syscall.c:151 | kernel_name reads back as "ParadoxOS" and its NUL, and every byte outside the 34 written keeps its value (the tail of the name included) |
| SyscallSpec.InfoNameBytes | src/kernel/syscall.c:151 | bytes 24 to 33 of the written block are the name and its NUL |
| SyscallSpec.LoadSlice | src/kernel/syscall.c:132-138 | reading k bytes at offset off of the structure is that slice of reading the whole structure |
| SyscallSpec.InfoLayout | src/kernel/syscall.c:132-138 | the fields sit at offsets 0, 4, 8, 16 and 24, little-endian |
| SyscallSpec.ReadBackField | src/kernel/syscall.c:132-138 | a field of n bytes written little-endian reads back as its value |
| Syscall.ValidateString | src/kernel/syscall.c:31-39 | the scan returns the ValidString verdict: a user pointer with a NUL among its first max_len bytes |
| Syscall.Syscalls.constructor | src/kernel/syscall.c:13-14 | an empty table, errno 0, over the given memory |
| Syscall.Syscalls.Init | src/kernel/syscall.c:242-257 | the state becomes SyscallSpec.Init of the old |
| Syscall.Syscalls.Handle | src/kernel/syscall.c:208-240 | state and result are SyscallSpec.Handle's |
| Syscall.Syscalls.Dispatch | src/kernel/syscall.c:157-205 | state and result are SyscallSpec.Dispatch's for the slot's wrapper |
| Syscall.Syscalls.SysRead | src/kernel/syscall.c:54-68 | state and result are SyscallSpec.SysRead's |
| Syscall.Syscalls.SysWrite | src/kernel/syscall.c:70-93 | the byte loop gives SyscallSpec.SysWrite's console and result |
| Syscall.Syscalls.SysOpen | src/kernel/syscall.c:95-105 | state and result are SyscallSpec.SysOpen's |
| Syscall.Syscalls.SysClose | src/kernel/syscall.c:107-115 | state and result are SyscallSpec.SysClose's |
| Syscall.Syscalls.SysInfo | src/kernel/syscall.c:140-154 | the stores give SyscallSpec.SysInfo's memory and result |
| AcpiSpec.Length | src/kernel/firmware/acpi/acpi.c:76 | the header's 32-bit length field read at offset 4 is below 2^32 |
| AcpiSpec.LeBound | src/kernel/firmware/acpi/acpi.c:76 | a little-endian number of n bytes is below 256^n, and 256^4 is 2^32 |
| AcpiSpec.CheckHeader | src/kernel/firmware/acpi/acpi.c:52-59 | the check is 0 or 1, and 0 exactly when the four signature bytes match and the byte sum is 0 modulo 256 |
| AcpiSpec.EntryCountAsWritten | src/kernel/firmware/acpi/acpi.c:111 | the C's count: (length - 36) divided by 8 with an XSDT and by 4 without |
| AcpiSpec.EntryCount | src/kernel/firmware/acpi/acpi.c:111 | the count of the 4-byte entries the scan reads: (length - 36) / 4 |
| AcpiSpec.FindFrom | src/kernel/firmware/acpi/acpi.c:114-120 | the first entry from `from` on whose table passes the check, and none exactly when no later entry's table passes |
| AcpiSpec.ChecksumLoopNeverExits | src/kernel/firmware/acpi/acpi.c:76 | with a length of 256 or more the uint8_t counter stays below the length after any number of increments: the loop never ends |
| AcpiSpec.ChecksumLoopShortTable | src/kernel/firmware/acpi/acpi.c:76-90 | with a length below 256 the loop runs exactly length times and the 8-bit sum it leaves is 0 exactly when ChecksumOk holds |
| AcpiSpec.SumAfterPrefix | src/kernel/firmware/acpi/acpi.c:76-83 | after k iterations below 256 the uint8_t sum is the sum of the first k bytes modulo 256 |
| AcpiSpec.ModAdd | src/kernel/firmware/acpi/acpi.c:82 | adding a byte to a sum already reduced modulo 256 gives the same result as reducing once |
| AcpiSpec.CheckHeaderSignature | src/kernel/firmware/acpi/acpi.c:52-59 | a wrong signature fails whatever the checksum; the right one passes exactly when the bytes sum to 0 modulo 256 |
| AcpiSpec.FindFirst | src/kernel/firmware/acpi/acpi.c:109-126 | NULL exactly when no 4-byte entry's table passes the check; otherwise the higher-half address of the first one that does, in RSDT order |
| AcpiSpec.EntryCountHalved | src/kernel/firmware/acpi/acpi.c:111 | without an XSDT the C's count is the entry count; with one it is half of it |
| AcpiSpec.TwoEntryLayout | src/kernel/firmware/acpi/acpi.c:111-116 | the example RSDT has length 44 and entries 0x2000 and 0x3000 |
| AcpiSpec.TwoEntryTables | src/kernel/firmware/acpi/acpi.c:52-59 | in the example the first entry's table fails the "APIC" check and the second passes |
| AcpiSpec.TwoEntryMadtSum | src/kernel/firmware/acpi/acpi.c:76-83 | the example MADT header's 36 bytes sum to 512, 0 modulo 256 |
| AcpiSpec.SumTen | src/kernel/firmware/acpi/acpi.c:76-83 | the example header's first ten bytes sum to 512 |
| AcpiSpec.SumStep | src/kernel/firmware/acpi/acpi.c:82 | one more byte of a prefix adds its value to the sum |
| AcpiSpec.SumZeros | src/kernel/firmware/acpi/acpi.c:82 | zero bytes after position k do not change the sum |
| AcpiSpec.FindMissesSecondHalf | src/kernel/firmware/acpi/acpi.c:111 | with an XSDT the scan as written finds no MADT in a two-entry RSDT whose second entry is the MADT, while scanning every entry finds it |
| Acpi.VerifyChecksum | src/kernel/firmware/acpi/acpi.c:62-106 | the byte loop returns 0 when the 8-bit sum of the table's length bytes is 0 and 1 otherwise |
| Acpi.CheckSdtHeader | src/kernel/firmware/acpi/acpi.c:52-59 | the signature compare, then the checksum, return CheckHeader |
| Acpi.FindSdtTable | src/kernel/firmware/acpi/acpi.c:109-126 | the entry loop returns Find: the first passing table's higher-half address, or NULL |
| MadtSpec.Visited | src/kernel/firmware/acpi/tables/madt.c:50-52 | the structures the walk meets lie between the first structure and the table's end, the first one first |
| MadtSpec.Of | src/kernel/firmware/acpi/tables/madt.c:54-87 | the structures of one type are among the given ones and have that type |
| MadtSpec.RecordList | src/kernel/firmware/acpi/tables/madt.c:54-87 | the switch appends p to list k exactly when p's type byte is that list's type |
| MadtSpec.WalkList | src/kernel/firmware/acpi/tables/madt.c:52-90 | the walk appends to list k exactly the structures of its type among those met, in order |
| MadtSpec.VisitedOf | src/kernel/firmware/acpi/tables/madt.c:52-90 | the structures of one type met from p are p's own if it has the type, then those met after it |
| MadtSpec.WalkClassifies | src/kernel/firmware/acpi/tables/madt.c:52-90 | the walk extends each of the four lists by exactly the structures of its type met, in table order |
| MadtSpec.WalkFits | src/kernel/firmware/acpi/tables/madt.c:60-84 | if the final lists fit the 32-pointer buffers so did the lists it started from |
| MadtSpec.WalkStep | src/kernel/firmware/acpi/tables/madt.c:52-90 | one iteration keeps the walk on course to its final lists, with a nonzero length byte and lists that still fit |
| MadtSpec.VisitedChain | src/kernel/firmware/acpi/tables/madt.c:89 | the structures met are chained by their length bytes, in increasing address order |
| MadtSpec.ChainedCons | src/kernel/firmware/acpi/tables/madt.c:89 | a chain starting at p's length byte after p stays chained with p in front |
| MadtSpec.VisitedLast | src/kernel/firmware/acpi/tables/madt.c:52 | the loop stops after the last structure met: its length byte reaches the table's end |
| MadtSpec.InitOutcome | src/kernel/firmware/acpi/tables/madt.c:42-90 | the four lists are exactly the local APIC, I/O APIC, override and NMI structures in table order, and a structure of another type is in none |
| MadtSpec.ShortTableEmpty | src/kernel/firmware/acpi/tables/madt.c:48-52 | a table whose length ends before offset 44 records nothing |
| Madt.MadtTables.constructor | src/kernel/firmware/acpi/tables/madt.c:12-22 | no table, and all four counters at 0 |
| Madt.MadtTables.Init | src/kernel/firmware/acpi/tables/madt.c:24-91 | found exactly when the APIC search succeeds (the C halts otherwise, leaving the state unchanged); then madt is the table found and the buffers hold MadtSpec.Init's lists |
| Madt.MadtTables.WalkTable | src/kernel/firmware/acpi/tables/madt.c:42-90 | the allocations and the loop leave exactly MadtSpec.Init's lists in fresh buffers |
| Madt.MadtTables.Allocate | src/kernel/firmware/acpi/tables/madt.c:42-45 | four fresh buffers of 32 pointers (kmalloc(256)), all counters 0 |
| Madt.MadtTables.RecordAt | src/kernel/firmware/acpi/tables/madt.c:54-87 | the recorded lists become Record of the old ones; buffers and table are unchanged |
| DescriptorSpec.ArchIdtAfter | src/kernel/arch/idt.c:164-181 | the table after idt_init's loops has all 256 gates |
| DescriptorSpec.UniformIdt | src/kernel/cpu.c:53-55 | n gates through one handler |
| DescriptorSpec.ExceptionName | src/kernel/arch/idt.c:84-88 | below 32 the name is the message table's entry; from 32 on it is "Unknown Exception" |
| DescriptorSpec.SegmentRoundTrip | src/kernel/arch/gdt.c:8-18 | gdt_set_entry's three base fields give back the base, the limit fields its low 20 bits, the flags nibble the high nibble of gran, and the access byte is kept |
| DescriptorSpec.GateRoundTrip | src/kernel/arch/idt.c:50-60 | idt_set_descriptor's three offset fields give back the handler address; selector 0x08, IST 0, the flags as attributes and reserved 0 |
| DescriptorSpec.GateInjective | src/kernel/arch/idt.c:50-60 | two gates with the same flags are equal only for the same handler address |
| DescriptorSpec.TssRoundTrip | src/kernel/gdt.c:25-34 | the TSS descriptor's five base fields give back the 64-bit TSS address, whatever the high half held before, and its limit is sizeof(struct TSS) = 104 |
| DescriptorSpec.FlatSegment | src/kernel/arch/gdt.c:27-39 | base 0, limit 0xFFFFFFFF and flags 0xA0 with a present access byte give a flat long-mode segment with that access byte |
| DescriptorSpec.NullSegment | src/kernel/arch/gdt.c:22 | gdt_set_entry(0, 0, 0, 0, 0) gives the all-zero descriptor |
| DescriptorSpec.ArchGdtSegments | src/kernel/arch/gdt.c:27-39 | the four segments after the null one are present flat long-mode segments |
| DescriptorSpec.SegmentPrivileges | src/kernel/arch/gdt.c:25-38 | access bytes 0x9A and 0x92 are ring 0 and 0xFA and 0xF2 ring 3; the code ones are executable, the data ones not |
| DescriptorSpec.ArchIdtVectors | src/kernel/arch/idt.c:164-181 | each exception vector, and each IRQ vector 32-47 with a nonzero stub, is a kernel-code interrupt gate to its stub; the other vectors stay zero |
| DescriptorSpec.UniformVectors | src/kernel/cpu.c:53-55 | every one of the 256 vectors is a kernel-code interrupt gate to the one handler |
| DescriptorSpec.ExceptionNamesMatchVectors | src/kernel/arch/idt.c:15-48 | the message table gives the names of the exception numbers 0, 8, 10-14, 17, 18 and 30 |
| ArchGdt.Gdt.constructor | src/kernel/arch/gdt.c:3-4 | the zero-initialised table and descriptor |
| ArchGdt.Gdt.SetEntry | src/kernel/arch/gdt.c:8-18 | entry index becomes the packed descriptor and the other entries are unchanged |
| ArchGdt.Gdt.Init | src/kernel/arch/gdt.c:20-45 | the null, kernel code, kernel data, user code and user data segments, size 5 * 8 - 1, offset the table's address |
| ArchIdt.Idt.constructor | src/kernel/arch/idt.c:9-10 | the zero-initialised table and descriptor |
| ArchIdt.Idt.SetDescriptor | src/kernel/arch/idt.c:50-60 | the vector's gate becomes the packed gate and the others are unchanged |
| ArchIdt.Idt.Init | src/kernel/arch/idt.c:164-186 | the table becomes ArchIdtAfter(stubs, 48), limit 256 * 16 - 1, base the table's address |
| Cpu.CpuTables.constructor | src/kernel/cpu.c:3-6 | the zero-initialised tables |
| Cpu.CpuTables.SetEntry | src/kernel/cpu.c:11-19 | cpu.c's gdt_set_entry: entry i becomes the packed descriptor and the others are unchanged |
| Cpu.CpuTables.SetDescriptor | src/kernel/cpu.c:21-30 | cpu.c's idt_set_descriptor: the vector's gate becomes the packed gate and the others are unchanged |
| Cpu.CpuTables.Init | src/kernel/cpu.c:40-62 | null, kernel code and kernel data in entries 0-2 (3 and 4 keep their contents), limit 5 * 8 - 1; every vector a gate to the handler, limit 256 * 16 - 1 |
| KernelIdt.Idt.constructor | src/kernel/idt.c:5-6 | the zero-initialised table |
| KernelIdt.Idt.SetDescriptor | src/kernel/idt.c:20-29 | the vector's gate becomes the packed gate and the others are unchanged |
| KernelIdt.Idt.Init | src/kernel/idt.c:31-41 | every vector an interrupt gate to the handler, limit sizeof(idt) - 1, base the table's address |
| KernelGdt.Gdt.constructor | src/kernel/gdt.c:4-6 | the zero-initialised structure |
| KernelGdt.Gdt.Init | src/kernel/gdt.c:8-37 | the six segment literals, the TSS descriptor for the TSS address (only two words of its high half assigned), limit sizeof(gdt) - 1 |
| Framebuffer.Plot | src/kernel/drivers/video/framebuffer.c:160 | the clipped writes at the plotted points leave a buffer of the same size |
| Framebuffer.LinePathStep | src/kernel/drivers/video/framebuffer.c:159-173 | plotting the current point short of the end and stepping to an adjacent point keeps the path from (x0, y0), adjacent, inside the bounding box and free of the end point |
| Framebuffer.LinePathEnd | src/kernel/drivers/video/framebuffer.c:160-162 | plotting the end point completes a path that starts at (x0, y0), moves between adjacent points, stays in the bounding box and meets (x1, y1) only last |
| Framebuffer.LineStep | src/kernel/drivers/video/framebuffer.c:164-172 | short of the end, e2 > -dy only when x has steps left, e2 < dx only when y has, at least one holds, and err keeps its closed form dx*(1+ny) - dy*(1+nx) |
| Framebuffer.LineErrorBound | src/kernel/drivers/video/framebuffer.c:157-172 | with dx, dy below 2^29 and err between -2dy and 2dx, 2*err and every updated err fit in int, and each branch keeps err in that range |
| Framebuffer.LineAdvance | src/kernel/drivers/video/framebuffer.c:164-172 | one pass of the loop short of the end: e2 and the new err fit in int, at least one coordinate takes one step towards its end, and err keeps its closed form dx*(1+ny) - dy*(1+nx) and its bounds |
| Framebuffer.Layout | src/kernel/drivers/video/framebuffer.c:221-230 | one glyph per character other than '\n', and no glyph is a line break |
| Framebuffer.WrapAdd | src/kernel/drivers/video/framebuffer.c:224-227 | adding to a value already wrapped to 32 bits wraps to the same result |
| Framebuffer.PenClosed | src/kernel/drivers/video/framebuffer.c:220-230 | the pen is 8 pixels right per character since the last '\n' and 16 pixels down per '\n', modulo 2^32 |
| Framebuffer.DrawString | src/kernel/drivers/video/framebuffer.c:217-231 | the fb_draw_char calls are Layout's glyphs, in order; none for a NULL string |
| Framebuffer.SourceOf | src/kernel/drivers/video/framebuffer.c:244-245 | the source pixel for a destination pixel lies inside the grid |
| Framebuffer.Copy | src/kernel/drivers/video/framebuffer.c:239-256 | the copied buffer has the same size |
| Framebuffer.LastOffset | src/kernel/drivers/video/framebuffer.c:242-243 | `int y = height - 1` starts at the last offset of the extent the backward loop covers, and below 0 when it covers none (height 0 or above 2^31) |
| Framebuffer.CopyStart | src/kernel/drivers/video/framebuffer.c:242-250 | before the first copy nothing has been copied, in either direction |
| Framebuffer.CopyUntouched | src/kernel/drivers/video/framebuffer.c:240-256 | in the chosen direction the source pixel about to be read has not been overwritten yet |
| Framebuffer.CopyExtend | src/kernel/drivers/video/framebuffer.c:244-245 | writing one source value to its destination extends the copied part by that offset |
| Framebuffer.CopyRow | src/kernel/drivers/video/framebuffer.c:242-254 | a finished row joins the copied rows |
| Framebuffer.CopyDone | src/kernel/drivers/video/framebuffer.c:242-256 | after the last row the buffer is Copy's |
| Framebuffer.CopyReadsSource | src/kernel/drivers/video/framebuffer.c:239-256 | every destination pixel holds what the source pixel at its place held before the copy, overlapping or not |
| Framebuffer.CopyKeepsOutside | src/kernel/drivers/video/framebuffer.c:239-256 | a pixel outside the destination region keeps its value |
| Framebuffer.CopyBackward | src/kernel/drivers/video/framebuffer.c:240-247 | the backward loops leave Copy of the extents they cover |
| Framebuffer.CopyForward | src/kernel/drivers/video/framebuffer.c:248-255 | the forward loops leave Copy of the old pixels |
| Framebuffer.Display.constructor | src/kernel/drivers/video/framebuffer.c:19-21 | no framebuffer, no back buffer, no double buffering |
| Framebuffer.Display.Init | src/kernel/drivers/video/framebuffer.c:44-77 | no framebuffer changes nothing; otherwise the first one is the front surface, and the current buffer is a fresh back buffer of width * height pixels when pages are available, else the front surface |
| Framebuffer.Display.PutPixel | src/kernel/drivers/video/framebuffer.c:87-93 | the current buffer gets the clipped write of the colour at (x, y); nothing without a framebuffer |
| Framebuffer.Display.PutPixelAlpha | src/kernel/drivers/video/framebuffer.c:95-118 | the clipped write of the colour blended channel by channel over the existing pixel, with alpha byte 0 |
| Framebuffer.Display.Clear | src/kernel/drivers/video/framebuffer.c:120-129 | the first width * height pixels of the current buffer are the colour, the rest kept |
| Framebuffer.Display.DrawRect | src/kernel/drivers/video/framebuffer.c:131-139 | the buffer is Paint of a solid colour: a clipped write at every (x + j, y + i), j < width, i < height, in 32-bit arithmetic |
| Framebuffer.Display.DrawRectAlpha | src/kernel/drivers/video/framebuffer.c:141-149 | the buffer is Paint of the blend shader over the rectangle |
| Framebuffer.Display.DrawLine | src/kernel/drivers/video/framebuffer.c:151-174 | the buffer is the clipped writes at the plotted points; they start at (x0, y0), end at (x1, y1), move between adjacent points and meet (x1, y1) only last |
| Framebuffer.Display.CopyRegion | src/kernel/drivers/video/framebuffer.c:233-257 | the buffer is Copy of the old one, backward exactly when src_y < dst_y or the rows match and src_x < dst_x |
| Canvas.ArgbChannels | src/kernel/gfx.c:31-37 | packing four channels into a pixel and reading them back with shifts and masks gives the channels |
| Canvas.ChannelsJoin | src/kernel/gfx.c:31-43 | every pixel is the packing of its four channels |
| Canvas.Blend | src/kernel/gfx.c:39-41 | (fg*a + bg*(255-a))/255 lies between fg and bg, is fg at alpha 255 and bg at alpha 0 |
| Canvas.DivBetween | src/kernel/gfx.c:39-41 | a quotient by d of a value between d*lo and d*hi lies between lo and hi |
| Canvas.WeightedBetween | src/kernel/gfx.c:39-41 | a sum of two terms with weights adding to 255 is between 255 times the smaller and 255 times the larger |
| Canvas.BlendBounds | src/kernel/drivers/video/framebuffer.c:112-114 | the blend sum lies between 255 times the smaller and the larger channel, and is exact at alpha 255 and 0 |
| Canvas.BlendRgbChannels | src/kernel/drivers/video/framebuffer.c:103-116 | alpha 255 gives the new colour's channels, alpha 0 the old pixel's, every channel lies between the two, and the alpha byte is the one given |
| Canvas.IndexOf | src/kernel/drivers/video/framebuffer.c:92 | y * width + x indexes inside the width x height grid and splits back into x and y |
| Canvas.Put | src/kernel/drivers/video/framebuffer.c:87-93 | a clipped write keeps the buffer's size |
| Canvas.PutAt | src/kernel/gfx.c:20-23 | a clipped write changes exactly the pixel at (x, y) when x < width and y < height, and nothing otherwise |
| Canvas.OffsetOf | src/kernel/gfx.c:49 | the k-th uint32_t coordinate after origin lies k past it |
| Canvas.CoversStep | src/kernel/gfx.c:48-49 | one more loop step covers exactly one more wrapped coordinate |
| Canvas.CoversLoop | src/kernel/gfx.c:47-49 | a coordinate is covered exactly when it is origin + j for some j < n, as a uint32_t loop produces |
| Canvas.Paint | src/kernel/gfx.c:46-52 | painting the rectangle keeps the buffer's size |
| Canvas.PaintStart | src/kernel/gfx.c:47-48 | before the first pixel nothing is painted |
| Canvas.PaintUnvisited | src/kernel/gfx.c:47-49 | the pixel the loop is about to visit still holds its original value |
| Canvas.PaintPixel | src/kernel/gfx.c:49 | a clipped write of the shader's value extends the painted part by one pixel |
| Canvas.PaintCell | src/kernel/gfx.c:49 | the same, at one pixel of the grid |
| Canvas.RowCol | src/kernel/gfx.c:22 | a pixel index is its row times the width plus its column |
| Canvas.RowExtends | src/kernel/gfx.c:48 | one more column of a row covers exactly the pixel at column x + j of that row in addition |
| Canvas.PaintRow | src/kernel/gfx.c:47-51 | a finished row joins the rows before it |
| Canvas.PaintSkip | src/kernel/gfx.c:107 | a pixel the shader leaves unchanged (alpha 0 in gfx_draw_image) needs no write |
| Canvas.PutBlend | src/kernel/gfx.c:25-44 | a blended clipped write keeps the buffer's size |
| Canvas.PaintBlend | src/kernel/gfx.c:57 | one blended write extends the painted part: the pixel it blends over is still the original |
| Canvas.PaintDone | src/kernel/gfx.c:47-51 | after the last row the buffer is Paint's |
| Canvas.RectCovers | src/kernel/gfx.c:46-52 | a pixel is in the rectangle exactly when it is in the grid, its column is x + j for some j < w and its row y + i for some i < h, wrapped to 32 bits |
| Canvas.Clear | src/kernel/gfx.c:114-118 | clearing keeps the buffer's size |
| Gfx.ClampFits | src/kernel/gfx.c:5-16 | the back buffer's dimensions, clamped to 1280 x 800, always fit the static 1280 * 800 pixel array |
| Gfx.Channel | src/kernel/gfx.c:84-90 | the intended interpolation c1 + (c2 - c1) * i / h in signed arithmetic: always between the two channel values, and c1 in row 0 |
| Gfx.ScaleDown | src/kernel/gfx.c:88-90 | scaling a difference d by i / h with C's truncating division and i < h stays between 0 and d, and is 0 for i = 0 |
| Gfx.ChannelAsWrittenLeavesRange | src/kernel/gfx.c:88-90 | as written (the int difference converted to unsigned by the uint32_t row index), a channel falling from 200 to 100 over three rows gives 252 in row 1, outside both ends |
| Gfx.ChannelAsWrittenRising | src/kernel/gfx.c:88-90 | for a rising channel whose product stays below 2^32 the as-written arithmetic gives the intended value |
| Gfx.GradientRows | src/kernel/gfx.c:82-98 | every gradient row colour is opaque, each channel lies between the two colours' channels, and row 0 has the first colour's channels |
| Gfx.RoundedCorners | src/kernel/gfx.c:62-80 | a pixel outside the four r x r corner squares is always drawn; one inside a corner square is drawn exactly when it lies within distance r of that corner's centre |
| Gfx.ImagePixelCases | src/kernel/gfx.c:103-109 | an image pixel with alpha 255 replaces the pixel below, alpha 0 leaves it, anything between blends it with the alpha byte forced to 0xFF |
| Gfx.Swap | src/kernel/gfx.c:120-127 | the front surface after a swap keeps its length |
| Gfx.SwapPlaces | src/kernel/gfx.c:120-127 | back-buffer pixel (X, Y) lands at front pixel (X, Y) of rows pitch / 4 pixels long, and a front pixel outside the back buffer's rows and columns keeps its value |
| Gfx.SwapPixel | src/kernel/gfx.c:124 | writing back-buffer pixel (i, j) at its front index extends the copied prefix by one pixel |
| Gfx.SwapStart | src/kernel/gfx.c:122 | before the first row nothing has been copied |
| Gfx.SwapRow | src/kernel/gfx.c:123-125 | a finished row moves the copied prefix to the start of the next row |
| Gfx.SwapFinish | src/kernel/gfx.c:122-126 | after the last row the front surface is the swapped surface |
| Gfx.DistinctPlace | src/kernel/gfx.c:124 | two different front indices differ in their row or their column, so later writes do not overwrite earlier ones |
| Gfx.Graphics.constructor | src/kernel/gfx.c:3-5 | both static buffer descriptions start zero |
| Gfx.Graphics.Init | src/kernel/gfx.c:7-18 | the boot loader's surface becomes the front buffer unchanged; the back buffer takes its dimensions clamped to 1280 x 800 and a pitch of four bytes per pixel |
| Gfx.Graphics.PutPixel | src/kernel/gfx.c:20-23 | a write at y * width + x inside the back buffer's width x height, and no change outside it |
| Gfx.Graphics.BlendPixel | src/kernel/gfx.c:25-44 | each channel blended over the existing pixel's by alpha / 255, the alpha byte forced to 0xFF, nothing written outside the back buffer |
| Gfx.Graphics.DrawRect | src/kernel/gfx.c:46-52 | the back buffer after put_pixel at (x + j, y + i) for every row i < h and column j < w, with uint32_t coordinates |
| Gfx.Graphics.DrawRectAlpha | src/kernel/gfx.c:54-60 | the back buffer after blend_pixel at every point of the w x h rectangle |
| Gfx.Graphics.DrawRoundedRect | src/kernel/gfx.c:62-80 | the rectangle painted with the rounded-corner shader whose pixels RoundedCorners characterises |
| Gfx.Graphics.DrawGradient | src/kernel/gfx.c:82-98 | row i of the rectangle painted in the colour interpolated i / h from c1 to c2 (the intended arithmetic, see Findings) |
| Gfx.Graphics.DrawImage | src/kernel/gfx.c:100-112 | each image pixel data[i * w + j] painted at (x + j, y + i) by its alpha byte as ImagePixelCases states |
| Gfx.Graphics.Clear | src/kernel/gfx.c:114-118 | the first width * height back-buffer pixels set to the colour, the rest kept |
| Gfx.Graphics.SwapBuffers | src/kernel/gfx.c:120-127 | the front surface becomes the swapped surface of SwapPlaces |
| Gfx.Graphics.SwapRowPixels | src/kernel/gfx.c:123-125 | one row of the back buffer copied onto the front surface, extending the copied prefix by a row |
| Limine.FindHome | src/kernel/mm/pmm.c:46-60 | the index of the first usable memory-map entry at least as long as the bitmap (the same search as src/kernel/memory/pmm.c:41-50) |
| Machine.AlignPage | src/include/paradox.h:11 | ALIGN_UP to the page size: the least multiple of 4096 not below x |
| Machine.CDiv | src/kernel/gfx.c:88-90 | C's integer division truncates toward zero: the magnitude is the quotient of the magnitudes |
| Machine.Wrap8 | src/kernel/lib/string.c:17 | a conversion to uint8_t keeps the value modulo 2^8, and leaves a value that fits unchanged |
| Machine.Wrap32 | src/kernel/gfx.c:49 | uint32_t arithmetic keeps the value modulo 2^32, and leaves a value that fits unchanged |
| Machine.Wrap64 | src/kernel/mm/pmm.c:39 | uint64_t arithmetic keeps the value modulo 2^64, and leaves a value that fits unchanged |
| Machine.AsInt8 | src/kernel/mouse.c:54-58 | a byte stored in an int8_t reads back in [-128, 128) and congruent to the byte modulo 2^8 |
| Machine.AsInt32 | src/kernel/drivers/video/framebuffer.c:153-154 | a (int) conversion gives a value in [-2^31, 2^31) congruent to the source modulo 2^32 |

## Left out

Hardware, firmware and concurrency:

- Port I/O and other hardware access are not modelled: `inb`/`outb`, `io_wait`, the PIC (`pic.c`) and its EOI writes,
  the serial port (`serial.c`), and `keyboard_init`/`mouse_init` with their wait/read/write handshakes. An interrupt
  handler takes the status and data bytes it would read as parameters.
- Instructions with no sequential meaning are left out: `invlpg` is a no-op, and so are `mov cr3`, `lgdt`/`lidt`/`ltr`,
  `sti`/`cli` and the `hlt` loops. `task_switch` is assembly; the model keeps only its change to the current task.
- Interrupt concurrency is left out. The ring buffer's volatile indices and handler re-entrancy become sequential calls,
  and there is no multi-core locking or TLB shoot-down.
- Boot-loader and firmware plumbing are parameters: the Limine and stivale2 request structures, the HHDM offset, the
  memory map, the framebuffer mode, and the RSDP. `acpi_init`'s tag lookup and `rsdp_init` are not modelled; its RSDT
  test is `Acpi.CheckSdtHeader` with the signature "RSDT". The halt paths of `acpi_init` and `madt_init` are not
  modelled.
- `pmm_alloc`'s results are parameters wherever another component allocates: the `pages` sequence of the slab
  allocator, the free-page count of the memfs, the stack page of the scheduler, `backAvailable` of `fb_init`, and
  `gotBuffer`, whether the window buffer was allocated, of WmSpec.Create, WindowManager.WindowManager.CreateWindow and
  AppSpec.CreateWindow.
- Every `printk` log line inside a modelled function is left out, and so are `display_panic_screen`,
  `exception_handler`'s printing and halting, and `display_system_status`.
- `irq_handler`'s dispatch and its EOI are left out.
- DescriptorSpec.ExceptionName: its contract only restates the name table it looks up.
- `syscall_init`'s INT 0x80 gate is left out.

Callbacks and drawing:

- Function-pointer callbacks are opaque:
  - the application callbacks (`init`, `cleanup`, `update`, `render`) and the built-in applications' init;
  - `app_run_all`, which only calls them;
  - the window render callback;
  - the `fs_node` operation tables, which are fixed to the memfs functions.
- Glyph and decoration drawing is left out: `fb_draw_char` with its font, `fb_draw_string`'s glyphs, `fb_draw_circle`,
  `fb_fill_gradient`, `wm_render_window`, and `desktop_init`/`desktop_render`/`desktop_render_taskbar`.
  `app_draw_text` and `app_draw_button` are left out too; they index with a `y + row - 30` that underflows.
- `desktop_handle_mouse` and `desktop_handle_keyboard` are not modelled. They only test for the taskbar and for Ctrl+N
  and Ctrl+Q, and then call `wm_handle_mouse_click`, `wm_create_window` and `wm_destroy_window`, which are modelled.
- `fb_swap_buffers` to the hardware address and `fb_get_info` are not modelled.
- `user_get_current` is a getter of one field and is not modelled.
- The getters `get_mouse_state`, `is_shift_pressed`, `is_ctrl_pressed` and `is_alt_pressed` of
  `drivers/input/keyboard.c` only copy out fields of `KeyInput.Driver`, and are not modelled.
- The legacy `keyboard_handler` of `keyboard.c` echoes the key on the screen (a rectangle, the glyph and a buffer
  swap) when a framebuffer is present; that drawing is not modelled, only the change to `last_key`.
- Vmm.Vmm.Init: takes the page `phys_to_virt(cr3)` falls in as `kernel_pml4`. vmm.c converts the raw CR3 value, so the
  pointer lies at the start of that page only while CR3's low 12 bits (PWT, PCD, and the PCID when enabled) are clear;
  an unaligned `kernel_pml4` pointer is not modelled.
- Framebuffer.Display.Init: the back buffer has `width * height` 32-bit pixels, where fb_init sizes it as
  `width * height * (bpp / 8)` bytes; the model assumes a 32-bpp mode and does not model other depths.
- `find_allocated_object` in `memory/slab.c` is never called and is not modelled.
- The cast in `vfs_mkdir` of `pmm_alloc`'s physical address straight to a pointer (no `phys_to_virt`) is not modelled;
  the directory's page is counted like a file's.

Corrected behaviour (each divergence from the C is a row under Findings):

- KeyInput.Driver.MouseHandler: decodes each movement with the intended 9-bit value `Ps2.Delta`, where keyboard.c reads
  the byte as a signed `int8_t` (`Ps2.DriverDeltaAsWritten`).
- KeyInput.Driver.ProcessPacket: the same decoding as MouseHandler.
- Mouse.Mouse.Handler: decodes each movement with `Ps2.Delta`, where mouse.c sign-extends the `int8_t` byte and then
  subtracts 256 again (`Ps2.MouseDeltaAsWritten`).
- Mouse.Mouse.CompletePacket: the same decoding as Handler.
- Ramdisk.Read: cuts the request at the end of the file with `RamdiskSpec.ReadCount`, where the C's uint32_t
  `offset + size` can wrap (`RamdiskSpec.ReadCountAsWritten`).
- Ramdisk.Read: copies the node's contents, as a read through their whole address would
  (`RamdiskSpec.ReadThroughPointer`). ramdisk.c reads through `impl`, a `uint32_t` field that keeps only the low 32
  bits of the address, at the `uint32_t` index `offset + i`, which wraps as well (`RamdiskSpec.ReadAsWritten`).
- RamdiskSpec.AddFile: keeps the contents in the node beside the truncated `impl`, so that the corrected read has
  something to copy; `impl` itself is stored as the C stores it.
- PhysPmm.FrameAllocator.Init: sizes the bitmap with `PhysPmm.BitmapSize`, a bit for every frame, where the C's
  `total_pages / 8` truncates (`PhysPmm.BitmapSizeAsWritten`).
- Acpi.FindSdtTable: scans every 4-byte RSDT entry (`AcpiSpec.EntryCount`), where the C divides by 8 when an XSDT is
  present (`AcpiSpec.EntryCountAsWritten`).
- Madt.MadtTables.Init: finds the MADT with that corrected scan.
- Gfx.Graphics.DrawGradient: interpolates each channel with `Gfx.Channel` in signed arithmetic, where the C's
  `uint32_t` row index turns a falling difference into a large unsigned one (`Gfx.ChannelAsWritten`).
- Acpi.VerifyChecksum: counts with a counter wide enough for any length, where acpi.c's `uint8_t` counter never
  reaches a length of 256 or more; `AcpiSpec.ChecksumLoopShortTable` shows the two agree below 256.

Inputs excluded by preconditions (the C's behaviour there is undefined, never terminates, or writes out of bounds):

- VmmSpec.SwapIn: requires a slot below 1024. vmm.c indexes `swap_storage` and `swap_used` with the slot in the
  entry and would read and write past them.
- VmmSpec.FaultDefined: a page fault on a swapped entry whose slot is 1024 or more is excluded, for the same reason.
- VmmSpec.SwapIn: requires `kernel_pml4` to be set, that is, `vmm_init` to have run. Before that the C walks a NULL PML4.
  The same requirement is on VmmSpec.SwapOut, VmmSpec.HandleFault, VmmSpec.CowOrDemand and VmmSpec.Demand, and on the
  methods Vmm.Vmm.SwapOutPage, Vmm.Vmm.Evict, Vmm.Vmm.SwapInPage, Vmm.Vmm.HandlePageFault, Vmm.Vmm.CopyOrDemand and
  Vmm.Vmm.DemandPage; `swap_out_page`, `swap_in_page` and `handle_page_fault` all walk `kernel_pml4`.
- VmmSpec.Wf: bounds the frame allocator to 2^52 frames so that every frame address fits in 64 bits, and requires a
  page-aligned HHDM offset, as every offset the boot loader reports is.
- VmmSpec.Release: a frame past the flags is left alone. mm/pmm.c's `bitmap_unset` writes that bit past the end
  of its bitmap; that out-of-bounds write is not modelled.
- VmmProps.DescendFacts: requires frame 0 to be in use (`InUse(st, 0)`). While it is free, `pmm_alloc(1)` hands it out
  as NULL and vmm.c gives up; `VmmProps.EnsureAllocates` covers that case one level at a time. The same requirement is
  on VmmProps.DescendThrough, VmmProps.DescendAllocating, VmmProps.AllocateStep, VmmProps.MapThenTranslate,
  VmmProps.DescendReaches, VmmProps.MapExhausted, VmmProps.MapKeepsOthers, VmmProps.MapCowIsReadOnly,
  VmmProps.MapThenUnmap, VmmProps.MapThenUnmapKeepsFrame, VmmProps.NewPml4Layout, VmmProps.SwapInRestores,
  VmmProps.SwapOutThenIn, VmmProps.FaultCopiesOnWrite, VmmProps.FaultZeroFills and VmmProps.FaultSwapsBackIn.
- VmmProps.SwapOutThenIn: requires the page's frame to lie inside the flags and not to be frame 0, so that the
  swap-out really frees a frame the swap-in can take. VmmProps.FaultSwapsBackIn requires the same.
- PhysPmm.FrameAllocator.Init: requires a usable memory-map entry long enough for the bitmap (`Limine.HasHome`).
  Without one, mm/pmm.c writes through a NULL bitmap.
- PhysPmm.FrameAllocator.Free: requires the freed range to lie inside the bitmap. The C does not check it and writes
  past the bitmap.
- HhdmPmm.FrameAllocator.Init: requires a usable entry long enough for the bitmap (`Limine.HasHome`).
- HhdmPmm.FrameAllocator.Init: requires fewer than 0x7FFF0000 pages, so that every bit of the bitmap has an index that
  fits in an `int`. `bitmap_set_bit`, `bitmap_unset_bit` and `bitmap_check_bit` take an `int bit` (libk/alloc/bitmap.c),
  and memory/pmm.c passes them `uint64_t` page numbers, which above INT_MAX become negative indices.
- HhdmPmm.FrameAllocator.Init: requires `base + length + 4096` to fit in 64 bits for every entry (`HhdmPmm.NoWrap`).
- HhdmPmm.FrameAllocator.Free: requires the freed pages to lie inside the bitmap; the C tests and clears bits past it.
- HhdmPmm.FrameAllocator.Alloc: counts `used_pages` in an unbounded integer, not a `uint64_t`. `HhdmPmm.AllocKeepsBalance` and
  `HhdmPmm.FreeKeepsBalance` keep it a fixed distance from the count of set bits; a wrap of the C's counter is not
  modelled.
- Slab.SlabAllocator.Init: requires the six pages `pmm_alloc(1)` returns to be non-NULL, aligned and distinct
  (`Slab.GoodPages`). An exhausted allocator, which the C does not check, is excluded.
- Slab.SlabAllocator.Init: each slab's objects are contiguous from `objects[0]`; the page-boundary pointer comparison
  of slab.c is not modelled.
- Vfs.Vfs.MemWrite: requires an offset of at most 4096. A larger offset makes the C's `PAGE_SIZE - offset` wrap and
  copy far past the page. Every call from `Vfs.Vfs.Write` meets it, because file positions never pass the page.
- VfsSpec.MemRead: uses unbounded `offset + size`, where memfs_read's `size_t` sum can wrap and copy past the node's
  data. A caller asking for close to 2^64 bytes gets the file's tail in the model.
- Printk.PrintDec: excludes LLONG_MIN, whose negation the C computes with signed overflow.
- Printk.PrintK: requires `Format(fmt, args)` to be defined. That excludes a format ending in a lone '%', where the C
  reads past the NUL, and a missing or mistyped argument, where the C reads an undefined variadic argument.
- Printk.PrintK: requires a format without NUL characters; the C stops at the first one.
- KMath.KPow: requires that no `int32_t` product overflows (`KMath.NoOverflow`) and that the exponent is not INT32_MIN,
  whose negation overflows.
- Scheduler.Scheduler.Create: requires `page + 4096` to fit in 64 bits, so that the stack top does not wrap.
- UserDb.Users.Register: requires a name and a password shorter than 32 bytes. `strcpy` into the 32-byte fields would
  overflow for longer ones.
- Madt.MadtTables.Init: requires the walk to meet no zero-length structure (`MadtSpec.Walkable`); on one, madt.c loops
  forever.
- Madt.MadtTables.Init: requires at most 32 structures of each kind (`MadtSpec.Fits`). madt.c's 32-pointer arrays
  would overflow beyond that.
- Framebuffer.Display.CopyRegion: requires both regions to lie inside the screen (`Framebuffer.RegionsInside`);
  fb_copy_region does not check them.
- Framebuffer.Display.DrawLine: requires coordinates below 2^29. Then `2 * err` and every updated `err` fit in an
  `int`, which each pass of the loop proves through `Framebuffer.LineAdvance`. Longer lines, where the C's `2 * err` can
  overflow, are excluded.
- Gfx.Graphics.DrawRoundedRect: requires a radius below 2^15, so that `dx * dx + dy * dy` cannot overflow an `int`.
- Gfx.Graphics.DrawImage: requires the image to hold at least `w * h` pixels; the C reads past a shorter one.
- Gfx.Graphics.Init: requires the boot loader's surface to hold `height` rows of `pitch / 4` pixels, each at least
  `width` pixels long. `gfx_swap_buffers` writes that much.
- Mouse.Mouse.Handler: without a framebuffer the pointer is not clamped, and the model's coordinates are unbounded
  integers where the C's `int` fields would overflow after enough movement.
- Mouse.ClampOnScreen: the clamp is proved to land on the screen for widths and heights from 1 to 2^31 - 1. The C's
  `(int)w - 1` misbehaves for a zero or wider size.

## Findings

| source | as written | input that shows it | evidently intended | confidence | as-written member | corrected member |
|---|---|---|---|---|---|---|
| src/kernel/drivers/input/keyboard.c:270-275 | the packet is stored in `int8_t`, so a byte of 0x80 or more is negative even when the sign bit is clear | byte 0xF0 with the sign bit clear reads as -16 | the 9-bit two's complement value of the byte and its sign bit: +240 | medium, not executed | Ps2.DriverDeltaMisreads | Ps2.DeltaIsNineBit |
| src/kernel/mouse.c:54-58 | the `int8_t` byte is sign-extended, and 256 is then subtracted again when the sign bit is set | 0xFF with the sign bit gives -257; 0xC8 without it gives -56 | the 9-bit value: -1 and +200 | high, not executed | Ps2.MouseDeltaMisreads | Ps2.DeltaIsNineBit |
| src/kernel/ramdisk.c:13 | `offset + size > length` is computed in `uint32_t` and can wrap | a 10-byte file read at offset 5 for 0xFFFFFFFF bytes: the sum wraps to 4, so all 0xFFFFFFFF bytes are read | the request cut at the end of the file: 5 bytes | high, not executed | RamdiskSpec.ReadCountWraps | RamdiskSpec.ReadCount |
| src/kernel/ramdisk.c:51 | the contents' 64-bit address is stored in `impl`, a `uint32_t` field, and ramdisk_read reads through it zero-extended | welcome.txt's literal in the higher half (0xFFFFFFFF80000000 up): the first seven bytes are read from a low address, zeros in a memory holding only the literal | a read of the contents themselves: "Welcome" | high, not executed | RamdiskSpec.ReadAsWrittenMisses | RamdiskSpec.ReadThroughPointer |
| src/kernel/mm/pmm.c:44 | `ALIGN_UP(total_pages / 8, PAGE_SIZE)` truncates before it rounds | 32769 frames get a 4096-byte bitmap of 32768 bits, so frame 32768 has no bit | a bit for every frame: 8192 bytes | high, not executed | PhysPmm.BitmapSizeAsWrittenTooSmall | PhysPmm.BitmapSize |
| src/kernel/firmware/acpi/acpi.c:111 | with an XSDT the entry count divides by 8, but the scan reads the RSDT's 4-byte entries | a two-entry RSDT whose second entry is the MADT, with an XSDT present: the MADT is not found | every 4-byte entry scanned: the MADT is found | high, not executed | AcpiSpec.FindMissesSecondHalf | AcpiSpec.FindFirst |
| src/kernel/gfx.c:88-90 | `((int)r2 - r1) * i / h` is evaluated in unsigned arithmetic, because `i` and `h` are `uint32_t` | channels 200 to 100, row 1 of 3 gives 252 | 200 + (100 - 200) * 1 / 3 = 167, between the two channels | high, not executed | Gfx.ChannelAsWrittenLeavesRange | Gfx.Channel |
| src/kernel/mm/vmm.c:220 | vmm.c enters `virt_to_phys(ptr)` for the pointer pmm_alloc returns and frees `phys_to_virt(paddr)`, but mm/pmm.c's allocator hands frame f out as the physical address f * 4096 and frees pointer / 4096 | HHDM offset 0xffff800000000000: map 0x200000 at va and unmap it. The entries hold f * 4096 - hhdm, and the free clears frame 0xffff800000200, past the bitmap, so frame 0x200 stays used | an allocator that returns and takes HHDM pointers, as memory/pmm.c's does: entries hold f * 4096 and the unmap frees frame 0x200 | high, not executed | VmmProps.MapThenUnmapKeepsFrame | VmmSpec.HhdmAllocatorAgrees |
| src/kernel/firmware/acpi/acpi.c:76 | the checksum loop counts with a `uint8_t`, which wraps at 256 | any table of 256 bytes or more: the loop never ends | a counter as wide as the table length | high, not executed | AcpiSpec.ChecksumLoopNeverExits | Acpi.VerifyChecksum |
