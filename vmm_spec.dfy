/**
 * The x86-64 four-level paging structures that src/kernel/mm/vmm.c
 * manipulates (Intel SDM Vol. 3A, section 4.5), the page-table entry
 * encodings it writes, and its operations as transitions of one state
 * value: memory, the frame allocator, the swap store and the
 * counters.
 *
 * Memory maps a page number (a kernel pointer divided by the page size)
 * to its 512 64-bit words; a page never written reads as zeros. vmm.c
 * reaches a table or a frame through the pointer it holds: the pointer
 * pmm_alloc returned, or phys_to_virt of the address field of an entry.
 * The allocator it is linked with is mm/pmm.c's, a used flag per frame
 * handing out the lowest free frame f as the pointer f * PAGE_SIZE, and
 * releasing, for pmm_free(p, 1), the frame p / PAGE_SIZE, or nothing when
 * that frame lies past the flags. So, as written, a fresh frame's entry is
 * virt_to_phys(f * PAGE_SIZE) | PRESENT | WRITABLE, and the frame a leaf
 * releases is the page of phys_to_virt of its address.
 */
module VmmSpec {
  import opened Machine
  import opened Wrappers

  const ENTRIES: nat := 512
  const SWAP_PAGES: nat := 1024
  /** max_mapped_pages: the ceiling above which demand paging first swaps a page out. */
  const MAX_MAPPED_PAGES: nat := 0x10000
  /** Frames are numbered below 2^52, so a frame's address fits the address field of an entry. */
  const FRAME_LIMIT: nat := 0x10_0000_0000_0000
  /** get_hhdm_offset's value when the boot loader gave no answer. */
  const DEFAULT_HHDM: u64 := 0xffff_8000_0000_0000

  const PTE_PRESENT: nat := 0x1
  const PTE_WRITABLE: nat := 0x2
  const PTE_USER: nat := 0x4
  const PTE_COW: nat := 0x200
  const PTE_SWAPPED: nat := 0x400
  const PTE_NX: nat := 0x8000_0000_0000_0000

  /** The error-code bit of a page fault caused by a write (Intel SDM Vol. 3A, section 4.7). */
  const FAULT_WRITE: nat := 0x2

  /** A zero-filled page. */
  function ZeroPage(): (r: seq<u64>)
    ensures |r| == ENTRIES && forall i :: 0 <= i < |r| ==> r[i] == 0
  {
    seq(ENTRIES, i => 0)
  }

  // ---------------------------------------------------------------------
  // Entries
  // ---------------------------------------------------------------------

  predicate Present(e: u64) { e % 2 == 1 }
  predicate Writable(e: u64) { (e / PTE_WRITABLE) % 2 == 1 }
  predicate Cow(e: u64) { (e / PTE_COW) % 2 == 1 }
  predicate Swapped(e: u64) { (e / PTE_SWAPPED) % 2 == 1 }
  predicate NoExecute(e: u64) { e >= PTE_NX }

  /** e & 0xFFFFFFFFFFFFF000: the address field (and bits 52-63) of an entry. */
  function AddressOf(e: u64): (r: u64)
    ensures r % PAGE_SIZE == 0 && r <= e
  { e - e % PAGE_SIZE }

  /** The frame an entry's address field names. */
  function FrameOf(e: u64): nat
  { e / PAGE_SIZE }

  /**
   * virt_to_phys(page) | PTE_PRESENT | PTE_WRITABLE for the pointer
   * f * PAGE_SIZE pmm_alloc(1) returns for frame f. Both operands of the
   * subtraction are page aligned, so the or is an addition.
   */
  function FrameEntry(f: nat, hhdm: u64): u64
    requires f < FRAME_LIMIT && hhdm % PAGE_SIZE == 0
  {
    AlignedDifference(f * PAGE_SIZE, hhdm);
    VirtToPhys(f * PAGE_SIZE, hhdm) + PTE_PRESENT + PTE_WRITABLE
  }

  /** The page that phys_to_virt(e & 0xFFFFFFFFFFFFF000) points into: the table or frame entry e leads to. */
  function TableOf(e: u64, hhdm: u64): nat
  { FrameOf(PhysToVirt(AddressOf(e), hhdm)) }

  /** The 64-bit difference of two page-aligned values is page aligned. */
  lemma AlignedDifference(a: nat, hhdm: u64)
    requires a % PAGE_SIZE == 0 && hhdm % PAGE_SIZE == 0
    ensures Wrap64(a - hhdm) % PAGE_SIZE == 0
  {
    var q := (a - hhdm) / U64_LIMIT;
    assert Wrap64(a - hhdm) == (a - hhdm) - q * U64_LIMIT;
    assert a - hhdm == (a / PAGE_SIZE - hhdm / PAGE_SIZE) * PAGE_SIZE;
    assert q * U64_LIMIT == (q * 0x10_0000_0000_0000) * PAGE_SIZE;
  }

  /** The low flag bits a mapping keeps: flags & 0xFFF with PTE_PRESENT added. */
  function LowFlags(flags: u64): nat
  {
    var low := flags % PAGE_SIZE;
    if low % 2 == 1 then low else low + PTE_PRESENT
  }

  /** vmm_map_page's leaf: (paddr & ~0xFFF) | (flags & 0xFFF) | PTE_PRESENT. */
  function LeafEntry(paddr: u64, flags: u64): u64
  {
    AddressOf(paddr) + LowFlags(flags)
  }

  /** The leaf of a swapped-out page: (slot << 12) | PTE_SWAPPED. */
  function SwapEntry(slot: nat): u64
    requires slot < SWAP_PAGES
  { slot * PAGE_SIZE + PTE_SWAPPED }

  /** (pte >> 12) & 0xFFFFF: the swap slot a swapped leaf names. */
  function SlotOf(e: u64): nat
  { (e / PAGE_SIZE) % 0x10_0000 }

  /**
   * A fresh frame's entry is present and writable, neither COW nor
   * swapped; its address field is virt_to_phys of the frame's pointer, and
   * following it with phys_to_virt leads back to the frame.
   */
  lemma FrameEntryDecodes(f: nat, hhdm: u64)
    requires f < FRAME_LIMIT && hhdm % PAGE_SIZE == 0
    ensures Present(FrameEntry(f, hhdm)) && Writable(FrameEntry(f, hhdm))
    ensures !Cow(FrameEntry(f, hhdm)) && !Swapped(FrameEntry(f, hhdm))
    ensures AddressOf(FrameEntry(f, hhdm)) == Wrap64(f * PAGE_SIZE - hhdm)
    ensures TableOf(FrameEntry(f, hhdm), hhdm) == f
  {
    var a := VirtToPhys(f * PAGE_SIZE, hhdm);
    AlignedDifference(f * PAGE_SIZE, hhdm);
    AlignedPresentWritable(a);
    PhysVirtInverse(f * PAGE_SIZE, hhdm);
    assert PhysToVirt(a, hhdm) == f * PAGE_SIZE;
  }

  /** A page-aligned address with PRESENT and WRITABLE added has exactly those two of the low flags, and keeps its address. */
  lemma AlignedPresentWritable(a: u64)
    requires a % PAGE_SIZE == 0
    ensures a + 3 < U64_LIMIT
    ensures Present(a + 3) && Writable(a + 3) && !Cow(a + 3) && !Swapped(a + 3) && AddressOf(a + 3) == a
  {
    var q := a / PAGE_SIZE;
    assert a == q * PAGE_SIZE;
    DivModUnique(a + 3, 2, q * 2048 + 1, 1);
    DivModUnique(q * 2048 + 1, 2, q * 1024, 1);
    DivModUnique(a + 3, PTE_COW, q * 8, 3);
    DivModUnique(q * 8, 2, q * 4, 0);
    DivModUnique(a + 3, PTE_SWAPPED, q * 4, 3);
    DivModUnique(q * 4, 2, q * 2, 0);
    DivModUnique(a + 3, PAGE_SIZE, q, 3);
  }

  /**
   * As written, a fresh frame's entry holds the frame's own address
   * f * PAGE_SIZE exactly when the HHDM offset is 0: with the boot loader's
   * offset it holds f * PAGE_SIZE - offset (mod 2^64) instead.
   */
  lemma FrameEntryPhysicalIff(f: nat, hhdm: u64)
    requires f < FRAME_LIMIT && hhdm % PAGE_SIZE == 0
    ensures FrameEntry(f, hhdm) == f * PAGE_SIZE + PTE_PRESENT + PTE_WRITABLE <==> hhdm == 0
  {
  }

  /**
   * The entry for frame f with an allocator that hands the frame out as
   * its HHDM pointer phys_to_virt(f * PAGE_SIZE), as memory/pmm.c's does.
   */
  function HhdmFrameEntry(f: nat, hhdm: u64): u64
    requires f < FRAME_LIMIT
  {
    PhysVirtInverse(f * PAGE_SIZE, hhdm);
    VirtToPhys(PhysToVirt(f * PAGE_SIZE, hhdm), hhdm) + PTE_PRESENT + PTE_WRITABLE
  }

  /** The frame such an allocator frees for pmm_free(phys_to_virt(e & ~0xFFF), 1): that of virt_to_phys of the pointer. */
  function HhdmReleased(e: u64, hhdm: u64): nat
  {
    FrameOf(VirtToPhys(PhysToVirt(AddressOf(e), hhdm), hhdm))
  }

  /**
   * With the HHDM allocator vmm.c's conversions fit: a fresh frame's entry
   * holds the frame's own address, following it leads to the frame's HHDM
   * pointer, and unmapping a leaf frees the frame of the leaf's address.
   */
  lemma HhdmAllocatorAgrees(f: nat, paddr: u64, flags: u64, hhdm: u64)
    requires f < FRAME_LIMIT && hhdm % PAGE_SIZE == 0
    ensures HhdmFrameEntry(f, hhdm) == f * PAGE_SIZE + PTE_PRESENT + PTE_WRITABLE
    ensures TableOf(HhdmFrameEntry(f, hhdm), hhdm) == FrameOf(PhysToVirt(f * PAGE_SIZE, hhdm))
    ensures HhdmReleased(LeafEntry(paddr, flags), hhdm) == paddr / PAGE_SIZE
  {
    PhysVirtInverse(f * PAGE_SIZE, hhdm);
    AlignedPlusLow(f * PAGE_SIZE, 3);
    assert AddressOf(HhdmFrameEntry(f, hhdm)) == f * PAGE_SIZE;
    LeafEntryDecodes(paddr, flags);
    PhysVirtInverse(AddressOf(paddr), hhdm);
  }

  /**
   * A leaf is present, names paddr's frame, and keeps exactly the low twelve
   * flag bits, so every flag above bit 11 (PTE_NX among them) is dropped.
   */
  lemma LeafEntryDecodes(paddr: u64, flags: u64)
    ensures Present(LeafEntry(paddr, flags))
    ensures FrameOf(LeafEntry(paddr, flags)) == paddr / PAGE_SIZE
    ensures LeafEntry(paddr, flags) % PAGE_SIZE == LowFlags(flags)
    ensures LeafEntry(paddr, flags) == LeafEntry(paddr, flags % PAGE_SIZE)
    ensures NoExecute(LeafEntry(paddr, flags)) == NoExecute(paddr)
    ensures AddressOf(LeafEntry(paddr, flags)) == AddressOf(paddr)
  {
    LowFlagsFacts(flags);
    LeafSplits(paddr, flags);
    LeafIsPresent(paddr, flags);
    LeafKeepsNx(paddr, flags);
  }

  /** A leaf is paddr's frame followed by the kept flags. */
  lemma LeafSplits(paddr: u64, flags: u64)
    ensures LeafEntry(paddr, flags) == (paddr / PAGE_SIZE) * PAGE_SIZE + LowFlags(flags)
    ensures LeafEntry(paddr, flags) % PAGE_SIZE == LowFlags(flags)
    ensures FrameOf(LeafEntry(paddr, flags)) == paddr / PAGE_SIZE
  {
    LowFlagsFacts(flags);
    AlignedPlusLow((paddr / PAGE_SIZE) * PAGE_SIZE, LowFlags(flags));
  }

  lemma LeafIsPresent(paddr: u64, flags: u64)
    ensures Present(LeafEntry(paddr, flags))
  {
    LowFlagsFacts(flags);
    LeafSplits(paddr, flags);
    var k := paddr / PAGE_SIZE;
    var low := LowFlags(flags);
    assert LeafEntry(paddr, flags) == 2 * (k * 2048 + low / 2) + 1;
  }

  lemma LeafKeepsNx(paddr: u64, flags: u64)
    ensures NoExecute(LeafEntry(paddr, flags)) == NoExecute(paddr)
  {
    LowFlagsFacts(flags);
    LeafSplits(paddr, flags);
    var k := paddr / PAGE_SIZE;
    assert paddr == k * PAGE_SIZE + paddr % PAGE_SIZE;
  }

  /** The kept flags are odd, below bit 12, and depend only on flags' low twelve bits. */
  lemma LowFlagsFacts(flags: u64)
    ensures 1 <= LowFlags(flags) < PAGE_SIZE && LowFlags(flags) % 2 == 1
    ensures LowFlags(flags % PAGE_SIZE) == LowFlags(flags)
  {
    assert (flags % PAGE_SIZE) % PAGE_SIZE == flags % PAGE_SIZE;
  }

  /** An aligned address plus bits below bit 12 keeps those bits as its offset and the address as its frame. */
  lemma AlignedPlusLow(a: int, low: int)
    requires a >= 0 && a % PAGE_SIZE == 0 && 0 <= low < PAGE_SIZE
    ensures (a + low) % PAGE_SIZE == low && (a + low) / PAGE_SIZE == a / PAGE_SIZE
  {
    var k := a / PAGE_SIZE;
    assert a == k * PAGE_SIZE;
    assert a + low == k * PAGE_SIZE + low;
  }

  /** vmm_map_cow_page's leaf is present, copy-on-write and read-only. */
  lemma CowLeafIsReadOnly(paddr: u64)
    ensures Present(LeafEntry(paddr, PTE_COW)) && Cow(LeafEntry(paddr, PTE_COW))
    ensures !Writable(LeafEntry(paddr, PTE_COW)) && !Swapped(LeafEntry(paddr, PTE_COW))
  {
    var e := LeafEntry(paddr, PTE_COW);
    var q := AddressOf(paddr) / PAGE_SIZE;
    assert e == q * PAGE_SIZE + 0x201 by {
      assert e == AddressOf(paddr) + PTE_COW + PTE_PRESENT;
    }
    assert e == 2 * (q * 2048 + 0x100) + 1;
    assert e / PTE_WRITABLE == 2 * (q * 1024 + 0x80);
    assert e / PTE_COW == 2 * (q * 4) + 1;
    assert e / PTE_SWAPPED == 2 * (q * 2);
  }

  /** A swapped leaf is not present, is swapped, and names its slot. */
  lemma SwapEntryDecodes(slot: nat)
    requires slot < SWAP_PAGES
    ensures !Present(SwapEntry(slot)) && Swapped(SwapEntry(slot)) && !Cow(SwapEntry(slot))
    ensures SlotOf(SwapEntry(slot)) == slot
  {
    SwapEntryBits(slot);
    SwapEntrySlot(slot);
  }

  lemma SwapEntryBits(slot: nat)
    requires slot < SWAP_PAGES
    ensures !Present(SwapEntry(slot)) && Swapped(SwapEntry(slot)) && !Cow(SwapEntry(slot))
  {
    var e := SwapEntry(slot);
    assert !Present(e) by { SwapEntryEven(slot); }
    assert Swapped(e) by { SwapEntryBit10(slot); assert slot * 4 + 1 == 2 * (2 * slot) + 1; }
    assert !Cow(e) by { SwapEntryBit9(slot); assert slot * 8 + 2 == 2 * (4 * slot + 1); }
  }

  lemma SwapEntryEven(slot: nat)
    requires slot < SWAP_PAGES
    ensures SwapEntry(slot) % 2 == 0
  {
    assert SwapEntry(slot) == 2 * (slot * 2048 + 0x200);
  }

  lemma SwapEntryBit10(slot: nat)
    requires slot < SWAP_PAGES
    ensures SwapEntry(slot) / PTE_SWAPPED == slot * 4 + 1
  {
    assert SwapEntry(slot) == (slot * 4 + 1) * PTE_SWAPPED;
  }

  lemma SwapEntryBit9(slot: nat)
    requires slot < SWAP_PAGES
    ensures SwapEntry(slot) / PTE_COW == slot * 8 + 2
  {
    assert SwapEntry(slot) == (slot * 8 + 2) * PTE_COW;
  }

  lemma SwapEntrySlot(slot: nat)
    requires slot < SWAP_PAGES
    ensures SlotOf(SwapEntry(slot)) == slot
  {
    AlignedPlusLow(slot * PAGE_SIZE, PTE_SWAPPED);
  }

  // ---------------------------------------------------------------------
  // Virtual addresses
  // ---------------------------------------------------------------------

  function Pml4Index(va: u64): nat { (va / 0x80_0000_0000) % ENTRIES }
  function PdpIndex(va: u64): nat { (va / 0x4000_0000) % ENTRIES }
  function PdIndex(va: u64): nat { (va / 0x20_0000) % ENTRIES }
  function PtIndex(va: u64): nat { (va / 0x1000) % ENTRIES }

  /** The four indices are the 9-bit fields at bits 39, 30, 21 and 12: with the page offset they rebuild the low 48 bits. */
  lemma IndicesSliceAddress(va: u64)
    ensures Pml4Index(va) < ENTRIES && PdpIndex(va) < ENTRIES && PdIndex(va) < ENTRIES && PtIndex(va) < ENTRIES
    ensures va % 0x1_0000_0000_0000 ==
      Pml4Index(va) * 0x80_0000_0000 + PdpIndex(va) * 0x4000_0000 + PdIndex(va) * 0x20_0000 +
      PtIndex(va) * 0x1000 + va % 0x1000
  {
    var a := va / 0x1000;
    assert va == a * 0x1000 + va % 0x1000;
    var b := a / ENTRIES;
    assert a == b * ENTRIES + PtIndex(va);
    var c := b / ENTRIES;
    assert va / 0x20_0000 == b;
    assert b == c * ENTRIES + PdIndex(va);
    var d := c / ENTRIES;
    assert va / 0x4000_0000 == c;
    assert c == d * ENTRIES + PdpIndex(va);
    assert va / 0x80_0000_0000 == d;
    assert va == (d / ENTRIES) * 0x1_0000_0000_0000 + va % 0x1_0000_0000_0000 ;
  }

  /** get_hhdm_offset: the boot loader's offset, or the default one. */
  function HhdmOffset(response: Option<u64>): u64
  {
    if response.Some? then response.value else DEFAULT_HHDM
  }

  /** phys_to_virt: paddr + offset in 64-bit arithmetic. */
  function PhysToVirt(paddr: u64, offset: u64): u64 { Wrap64(paddr + offset) }

  /** virt_to_phys: vaddr - offset in 64-bit arithmetic. */
  function VirtToPhys(vaddr: u64, offset: u64): u64 { Wrap64(vaddr - offset) }

  /** The two conversions undo each other for every address and offset. */
  lemma PhysVirtInverse(a: u64, offset: u64)
    ensures VirtToPhys(PhysToVirt(a, offset), offset) == a
    ensures PhysToVirt(VirtToPhys(a, offset), offset) == a
  {
    if a + offset >= U64_LIMIT {
      assert PhysToVirt(a, offset) == a + offset - U64_LIMIT;
    }
    if a < offset {
      assert VirtToPhys(a, offset) == a - offset + U64_LIMIT;
    }
  }

  // ---------------------------------------------------------------------
  // Physical memory and the frame allocator
  // ---------------------------------------------------------------------

  /** The words of frame f. */
  function Read(mem: map<nat, seq<u64>>, f: nat): (r: seq<u64>)
    ensures |r| == ENTRIES
  {
    if f in mem && |mem[f]| == ENTRIES then mem[f] else ZeroPage()
  }

  /** Stores v in word i of frame f. */
  function Write(mem: map<nat, seq<u64>>, f: nat, i: nat, v: u64): map<nat, seq<u64>>
    requires i < ENTRIES
  {
    mem[f := Read(mem, f)[i := v]]
  }

  lemma ReadWrite(mem: map<nat, seq<u64>>, f: nat, i: nat, v: u64, g: nat, j: nat)
    requires i < ENTRIES && j < ENTRIES
    ensures Read(Write(mem, f, i, v), g)[j] == if f == g && i == j then v else Read(mem, g)[j]
  {
  }

  /** The lowest frame, from `from` on, that is not in use. */
  function FirstFreeFrom(used: seq<bool>, from: nat): (r: Option<nat>)
    decreases |used| - from
  {
    if from >= |used| then None
    else if !used[from] then Some(from)
    else FirstFreeFrom(used, from + 1)
  }

  lemma {:induction false} FirstFreeFromFacts(used: seq<bool>, from: nat)
    ensures FirstFreeFrom(used, from).Some? ==>
      from <= FirstFreeFrom(used, from).value < |used| && !used[FirstFreeFrom(used, from).value] &&
      forall g :: from <= g < FirstFreeFrom(used, from).value ==> used[g]
    ensures FirstFreeFrom(used, from).None? ==> forall g :: from <= g < |used| ==> used[g]
    decreases |used| - from
  {
    if from < |used| && used[from] {
      FirstFreeFromFacts(used, from + 1);
    }
  }

  /** pmm_alloc(1): the lowest free frame, or NULL when every frame is in use. */
  function FirstFree(used: seq<bool>): (r: Option<nat>)
    ensures r.Some? ==> r.value < |used| && !used[r.value]
    ensures r.None? <==> forall g :: 0 <= g < |used| ==> used[g]
  {
    FirstFreeFromFacts(used, 0);
    FirstFreeFrom(used, 0)
  }

  /**
   * The frame vmm.c gets from pmm_alloc(1): the lowest free frame f comes
   * back as the pointer f * PAGE_SIZE, so frame 0 comes back as NULL,
   * which vmm.c takes for a failure.
   */
  function Alloc(used: seq<bool>): (r: Option<nat>)
    ensures r.Some? ==> 0 < r.value < |used| && !used[r.value] && FirstFree(used) == r
    ensures r.None? <==> (forall g :: 0 <= g < |used| ==> used[g]) || (0 < |used| && !used[0])
    ensures (|used| == 0 || used[0]) ==> r == FirstFree(used)
  {
    var f := FirstFree(used);
    if f == Some(0) then None else f
  }

  /** pmm_alloc(1)'s effect on the flags: the lowest free frame, if there is one, is marked used, frame 0 included. */
  function Claim(used: seq<bool>): (r: seq<bool>)
    ensures |r| == |used|
    ensures FirstFree(used).None? ==> r == used
    ensures FirstFree(used).Some? ==> r == used[FirstFree(used).value := true]
  {
    match FirstFree(used)
    case None => used
    case Some(f) => used[f := true]
  }

  /** pmm_free of the pointer of page f: frame f is released; a frame past the flags is left alone. */
  function Release(used: seq<bool>, f: nat): (r: seq<bool>)
    ensures |r| == |used|
    ensures forall g :: 0 <= g < |used| ==> r[g] == (used[g] && g != f)
  {
    if f < |used| then used[f := false] else used
  }

  /** ++ on a size_t: wraps from the largest value to zero. */
  function Inc(t: u64): u64
  {
    if t == U64_LIMIT - 1 then 0 else t + 1
  }

  /** -- on a size_t: wraps from zero to the largest value. */
  function Dec(t: u64): u64
  {
    if t == 0 then U64_LIMIT - 1 else t - 1
  }

  /** Inc and Dec are 64-bit modular arithmetic, and each undoes the other. */
  lemma IncDecWrap(t: u64)
    ensures Inc(t) == Wrap64(t + 1) && Dec(t) == Wrap64(t - 1)
    ensures Dec(Inc(t)) == t && Inc(Dec(t)) == t
  {
    if t == U64_LIMIT - 1 {
      assert Wrap64(t + 1) == 0 by { assert (t + 1) % U64_LIMIT == 0; }
    }
    if t == 0 {
      assert Wrap64(t - 1) == U64_LIMIT - 1 by { assert (t - 1) % U64_LIMIT == U64_LIMIT - 1; }
    }
  }

  // ---------------------------------------------------------------------
  // The state
  // ---------------------------------------------------------------------

  /**
   * mem: memory by page; used: mm/pmm.c's flags, one per frame; swapStore
   * and swapUsed: swap_storage (one page per slot) and swap_used; swapNext:
   * swap_next; total: total_mapped_pages (a size_t); kernelPml4: the page
   * of kernel_pml4, or NULL; hhdm: the offset get_hhdm_offset returns.
   */
  datatype VmState = VmState(
    mem: map<nat, seq<u64>>,
    used: seq<bool>,
    swapStore: seq<seq<u64>>,
    swapUsed: seq<bool>,
    swapNext: nat,
    total: u64,
    kernelPml4: Option<nat>,
    hhdm: u64)

  /**
   * The fixed sizes: frames fit an entry's address field, 1024 swap slots,
   * the cursor in range; and the HHDM offset is page aligned.
   */
  predicate Wf(st: VmState)
  {
    |st.used| <= FRAME_LIMIT && |st.swapStore| == SWAP_PAGES && |st.swapUsed| == SWAP_PAGES &&
    st.swapNext < SWAP_PAGES && st.hhdm % PAGE_SIZE == 0
  }

  /** pmm_alloc will not hand page f out: its frame is marked used, or it lies past the allocator's frames. */
  predicate InUse(st: VmState, f: nat)
  {
    f >= |st.used| || st.used[f]
  }

  /** Takes frame f from the allocator and fills it with the given words. */
  function Install(st: VmState, f: nat, page: seq<u64>): VmState
    requires f < |st.used|
  {
    st.(used := st.used[f := true], mem := st.mem[f := page])
  }

  // ---------------------------------------------------------------------
  // Walking the tables
  // ---------------------------------------------------------------------

  /** The index va selects at a level: 0 is the PML4, 1 the PDP, 2 the page directory, 3 the page table. */
  function Index(level: nat, va: u64): (r: nat)
    ensures r < ENTRIES
  {
    if level == 0 then Pml4Index(va)
    else if level == 1 then PdpIndex(va)
    else if level == 2 then PdIndex(va)
    else PtIndex(va)
  }

  /** The table an entry of a table leads to through phys_to_virt, when the entry is present. */
  function Next(mem: map<nat, seq<u64>>, h: u64, table: nat, idx: nat): Option<nat>
    requires idx < ENTRIES
  {
    var e := Read(mem, table)[idx];
    if Present(e) then Some(TableOf(e, h)) else None
  }

  /** The tables va's walk visits from a table at the given level down, as far as the entries are present. */
  function WalkFrom(mem: map<nat, seq<u64>>, h: u64, table: nat, va: u64, level: nat): (r: seq<nat>)
    requires level <= 3
    ensures 1 <= |r| <= 4 - level && r[0] == table
    decreases 3 - level
  {
    if level == 3 then [table]
    else match Next(mem, h, table, Index(level, va))
      case None => [table]
      case Some(n) => [table] + WalkFrom(mem, h, n, va, level + 1)
  }

  /** The PML4, PDP, page-directory and page-table pages of va's walk, as far as they are present. */
  function Walk(mem: map<nat, seq<u64>>, h: u64, root: nat, va: u64): (r: seq<nat>)
    ensures 1 <= |r| <= 4 && r[0] == root
  {
    WalkFrom(mem, h, root, va, 0)
  }

  /** The page table holding va's leaf, when every level above it is present. */
  function PtOf(mem: map<nat, seq<u64>>, h: u64, root: nat, va: u64): Option<nat>
  {
    var w := Walk(mem, h, root, va);
    if |w| == 4 then Some(w[3]) else None
  }

  /** va's leaf entry, when every level above it is present. */
  function Translate(mem: map<nat, seq<u64>>, h: u64, root: nat, va: u64): Option<u64>
  {
    match PtOf(mem, h, root, va)
    case None => None
    case Some(pt) => Some(Read(mem, pt)[PtIndex(va)])
  }

  /** The frames are allocated and pairwise different. */
  predicate Sound(st: VmState, w: seq<nat>)
  {
    (forall k :: 0 <= k < |w| ==> InUse(st, w[k])) &&
    (forall k, l :: 0 <= k < l < |w| ==> w[k] != w[l])
  }

  /** The tables on va's walk are allocated and pairwise different frames. */
  predicate WalkSound(st: VmState, root: nat, va: u64)
  {
    Sound(st, Walk(st.mem, st.hhdm, root, va))
  }

  /** A walk only depends on the tables whose entries it reads. */
  lemma {:induction false} WalkFrame(m1: map<nat, seq<u64>>, m2: map<nat, seq<u64>>, h: u64, t: nat, va: u64, level: nat)
    requires level <= 3
    requires forall k :: 0 <= k < |WalkFrom(m1, h, t, va, level)| && level + k < 3 ==>
      Read(m2, WalkFrom(m1, h, t, va, level)[k]) == Read(m1, WalkFrom(m1, h, t, va, level)[k])
    ensures WalkFrom(m2, h, t, va, level) == WalkFrom(m1, h, t, va, level)
    decreases 3 - level
  {
    var w := WalkFrom(m1, h, t, va, level);
    if level < 3 {
      assert Read(m2, t) == Read(m1, t) by { assert w[0] == t; }
      match Next(m1, h, t, Index(level, va))
      case None =>
      case Some(n) =>
        var w' := WalkFrom(m1, h, n, va, level + 1);
        assert w == [t] + w';
        forall k | 0 <= k < |w'| && level + 1 + k < 3
          ensures Read(m2, w'[k]) == Read(m1, w'[k])
        {
          assert w'[k] == w[k + 1];
        }
        WalkFrame(m1, m2, h, n, va, level + 1);
    }
  }

  // ---------------------------------------------------------------------
  // vmm_map_page, vmm_map_cow_page, vmm_unmap_page, vmm_new_pml4
  // ---------------------------------------------------------------------

  /** Everything but memory and the allocator agrees. */
  predicate SameRest(a: VmState, b: VmState)
  {
    a.swapStore == b.swapStore && a.swapUsed == b.swapUsed && a.swapNext == b.swapNext &&
    a.total == b.total && a.kernelPml4 == b.kernelPml4 && a.hhdm == b.hhdm
  }

  /**
   * One level of vmm_map_page: a present entry leads on unchanged; a
   * missing one gets a freshly zeroed frame entered as present and
   * writable; with no free frame the walk stops (None).
   */
  function Ensure(st: VmState, table: nat, idx: nat): (r: (VmState, Option<nat>))
    requires Wf(st) && idx < ENTRIES
    ensures Wf(r.0) && |r.0.used| == |st.used| && SameRest(r.0, st)
  {
    var e := Read(st.mem, table)[idx];
    if Present(e) then (st, Some(TableOf(e, st.hhdm)))
    else match Alloc(st.used)
      case None => (st.(used := Claim(st.used)), None)
      case Some(f) =>
        var st1 := Install(st, f, ZeroPage());
        (st1.(mem := Write(st1.mem, table, idx, FrameEntry(f, st.hhdm))), Some(f))
  }

  /** The three intermediate levels of vmm_map_page from a table at the given level: the page table reached, or None. */
  function Descend(st: VmState, table: nat, va: u64, level: nat): (r: (VmState, Option<nat>))
    requires Wf(st) && level <= 3
    ensures Wf(r.0) && |r.0.used| == |st.used| && SameRest(r.0, st)
    decreases 3 - level
  {
    if level == 3 then (st, Some(table))
    else
      var l := Ensure(st, table, Index(level, va));
      if l.1.None? then (l.0, None) else Descend(l.0, l.1.value, va, level + 1)
  }

  /** vmm_map_page(pml4, vaddr, paddr, flags). */
  function MapPage(st: VmState, root: nat, va: u64, paddr: u64, flags: u64): (r: VmState)
    requires Wf(st)
    ensures Wf(r) && |r.used| == |st.used|
  {
    var d := Descend(st, root, va, 0);
    if d.1.None? then d.0
    else d.0.(mem := Write(d.0.mem, d.1.value, PtIndex(va), LeafEntry(paddr, flags)), total := Inc(d.0.total))
  }

  /** vmm_map_cow_page(pml4, vaddr, paddr). */
  function MapCowPage(st: VmState, root: nat, va: u64, paddr: u64): (r: VmState)
    requires Wf(st)
    ensures Wf(r) && |r.used| == |st.used|
  {
    MapPage(st, root, va, paddr, PTE_COW)
  }

  /** vmm_unmap_page(pml4, vaddr). */
  function UnmapPage(st: VmState, root: nat, va: u64): (r: VmState)
    requires Wf(st)
    ensures Wf(r) && |r.used| == |st.used|
  {
    match PtOf(st.mem, st.hhdm, root, va)
    case None => st
    case Some(pt) =>
      var pte := Read(st.mem, pt)[PtIndex(va)];
      var st1 := if Present(pte) then st.(used := Release(st.used, TableOf(pte, st.hhdm)), total := Dec(st.total)) else st;
      st1.(mem := Write(st1.mem, pt, PtIndex(va), 0))
  }

  /** The words of a new PML4 once the kernel half has been copied from the given table. */
  function NewRoot(kernel: Option<seq<u64>>): (r: seq<u64>)
    ensures |r| == ENTRIES
  {
    match kernel
    case None => ZeroPage()
    case Some(k) => seq(ENTRIES, i => if i < 256 || i >= |k| then 0 else k[i])
  }

  /**
   * vmm_new_pml4: a zeroed frame, with entries 256-511 then copied from
   * kernel_pml4 when it is set (read after the zeroing, as the code does).
   */
  function NewPml4(st: VmState): (r: (VmState, Option<nat>))
    requires Wf(st)
    ensures Wf(r.0) && |r.0.used| == |st.used|
  {
    match Alloc(st.used)
    case None => (st.(used := Claim(st.used)), None)
    case Some(f) =>
      var st1 := Install(st, f, ZeroPage());
      var kernel := if st.kernelPml4.Some? then Some(Read(st1.mem, st.kernelPml4.value)) else None;
      (st1.(mem := st1.mem[f := NewRoot(kernel)]), Some(f))
  }

  // ---------------------------------------------------------------------
  // Swapping
  // ---------------------------------------------------------------------

  /** The slot i places after slot next, going round: (next + i) % SWAP_PAGES. */
  function SlotAt(next: nat, i: nat): (r: nat)
    ensures r < SWAP_PAGES
  {
    (next + i) % SWAP_PAGES
  }

  /** The first free swap slot among SlotAt(next, i), SlotAt(next, i + 1), ... */
  function FreeSlotFrom(swapUsed: seq<bool>, next: nat, i: nat): (r: Option<nat>)
    requires |swapUsed| == SWAP_PAGES
    ensures r.Some? ==> r.value < SWAP_PAGES
    decreases SWAP_PAGES - i
  {
    if i >= SWAP_PAGES then None
    else if !swapUsed[SlotAt(next, i)] then Some(SlotAt(next, i))
    else FreeSlotFrom(swapUsed, next, i + 1)
  }

  /** The slot swap_out_page picks: the first free one cyclically from swap_next. */
  function FreeSlot(st: VmState): (r: Option<nat>)
    requires Wf(st)
    ensures r.Some? ==> r.value < SWAP_PAGES
  {
    FreeSlotFrom(st.swapUsed, st.swapNext, 0)
  }

  /**
   * swap_out_page(vaddr), walking kernel_pml4: -1 when no slot is free or
   * a level or the leaf is not present. Otherwise the page is copied to
   * the slot, the slot is marked used, swap_next moves past it, the leaf
   * becomes (slot << 12) | PTE_SWAPPED, the frame is released, the counter
   * drops and the slot is returned.
   */
  function SwapOut(st: VmState, va: u64): (r: (VmState, int))
    requires Wf(st) && st.kernelPml4.Some?
    ensures Wf(r.0) && |r.0.used| == |st.used| && r.0.kernelPml4 == st.kernelPml4
  {
    match FreeSlot(st)
    case None => (st, -1)
    case Some(slot) =>
      match PtOf(st.mem, st.hhdm, st.kernelPml4.value, va)
      case None => (st, -1)
      case Some(pt) =>
        var pte := Read(st.mem, pt)[PtIndex(va)];
        if !Present(pte) then (st, -1)
        else
          var frame := TableOf(pte, st.hhdm);
          (st.(swapStore := st.swapStore[slot := Read(st.mem, frame)],
               swapUsed := st.swapUsed[slot := true],
               swapNext := (slot + 1) % SWAP_PAGES,
               mem := Write(st.mem, pt, PtIndex(va), SwapEntry(slot)),
               used := Release(st.used, frame),
               total := Dec(st.total)), slot as int)
  }

  /** The page table swap_in_page writes into: it follows the entries without checking PTE_PRESENT. */
  function BlindPt(mem: map<nat, seq<u64>>, h: u64, root: nat, va: u64): nat
  {
    var pdp := TableOf(Read(mem, root)[Pml4Index(va)], h);
    var pd := TableOf(Read(mem, pdp)[PdpIndex(va)], h);
    TableOf(Read(mem, pd)[PdIndex(va)], h)
  }

  /**
   * swap_in_page(vaddr, slot): -1 when pmm_alloc returns NULL, with
   * nothing changed but frame 0's flag when that was the frame. Otherwise the slot's page is copied into a new frame, the slot
   * is freed, the leaf becomes that frame, present and writable, and the
   * counter grows.
   */
  function SwapIn(st: VmState, va: u64, slot: nat): (r: (VmState, int))
    requires Wf(st) && st.kernelPml4.Some? && slot < SWAP_PAGES
    ensures Wf(r.0) && |r.0.used| == |st.used| && r.0.kernelPml4 == st.kernelPml4
  {
    match Alloc(st.used)
    case None => (st.(used := Claim(st.used)), -1)
    case Some(f) =>
      var st1 := Install(st, f, st.swapStore[slot]).(swapUsed := st.swapUsed[slot := false]);
      var pt := BlindPt(st1.mem, st.hhdm, st.kernelPml4.value, va);
      (st1.(mem := Write(st1.mem, pt, PtIndex(va), FrameEntry(f, st.hhdm)), total := Inc(st.total)), 0)
  }

  // ---------------------------------------------------------------------
  // handle_page_fault
  // ---------------------------------------------------------------------

  /** The page demand paging evicts under memory pressure: 0x400000 + (total % 100) * PAGE_SIZE. */
  function Victim(total: u64): u64
  {
    0x40_0000 + (total % 100) * PAGE_SIZE
  }

  /** A swapped leaf names one of the 1024 slots (a larger slot would index past swap_storage). */
  predicate FaultDefined(st: VmState, va: u64)
    requires st.kernelPml4.Some?
  {
    var t := Translate(st.mem, st.hhdm, st.kernelPml4.value, va);
    t.Some? && Swapped(t.value) ==> SlotOf(t.value) < SWAP_PAGES
  }

  /**
   * handle_page_fault(vaddr, error_code), walking kernel_pml4. An absent
   * level changes nothing. A swapped leaf is swapped in; when that fails
   * the later branches are tried. A write to a COW leaf gets a private
   * copy mapped present and writable. A leaf that is not present gets a
   * zeroed frame, after a page has been evicted if the counter has
   * reached max_mapped_pages; a failed eviction ends the fault.
   */
  function HandleFault(st: VmState, va: u64, errorCode: u64): (r: VmState)
    requires Wf(st) && st.kernelPml4.Some? && FaultDefined(st, va)
    ensures Wf(r)
  {
    match PtOf(st.mem, st.hhdm, st.kernelPml4.value, va)
    case None => st
    case Some(pt) =>
      var pte := Read(st.mem, pt)[PtIndex(va)];
      var tried := if Swapped(pte) then SwapIn(st, va, SlotOf(pte)) else (st, -1);
      if tried.1 == 0 then tried.0
      else CowOrDemand(tried.0, pt, va, pte, errorCode)
  }

  /** The copy-on-write and demand-paging branches of handle_page_fault. */
  function CowOrDemand(st: VmState, pt: nat, va: u64, pte: u64, errorCode: u64): (r: VmState)
    requires Wf(st) && st.kernelPml4.Some?
    ensures Wf(r)
  {
    var cowWrite := Cow(pte) && (errorCode / FAULT_WRITE) % 2 == 1;
    if cowWrite && Alloc(st.used).Some? then
      var f := Alloc(st.used).value;
      var st1 := Install(st, f, Read(st.mem, TableOf(pte, st.hhdm)));
      st1.(mem := Write(st1.mem, pt, PtIndex(va), FrameEntry(f, st.hhdm)))
    else
      var s1 := if cowWrite then st.(used := Claim(st.used)) else st;
      if !Present(pte) then Demand(s1, pt, va) else s1
  }

  /**
   * Demand paging for a leaf that is not present: under pressure a victim
   * is swapped out first and its failure ends the fault; then a zeroed
   * frame is entered present and writable, and the counter grows.
   */
  function Demand(st: VmState, pt: nat, va: u64): (r: VmState)
    requires Wf(st) && st.kernelPml4.Some?
    ensures Wf(r)
  {
    var evicted := if st.total >= MAX_MAPPED_PAGES then SwapOut(st, Victim(st.total)) else (st, 0);
    var s2 := evicted.0;
    if evicted.1 < 0 then s2
    else match Alloc(s2.used)
      case None => s2.(used := Claim(s2.used))
      case Some(f) =>
        var st1 := Install(s2, f, ZeroPage());
        st1.(mem := Write(st1.mem, pt, PtIndex(va), FrameEntry(f, s2.hhdm)), total := Inc(s2.total))
  }
}
