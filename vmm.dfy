/**
 * The virtual memory manager's own state (kernel/mm/vmm.c): memory and
 * the page allocator it draws from, the in-memory swap area,
 * the pressure counter and kernel_pml4. Every method is proved to move
 * State() exactly as the VmmSpec function of the same operation does, and
 * the properties of those functions are proved in VmmProps.
 */
module Vmm {
  import opened Machine
  import opened Wrappers
  import opened VmmSpec

  /** A new PML4 part-way through the copy: entries 256 up to i taken from the kernel's table, the rest zero. */
  ghost function Copied(kernel: seq<u64>, i: nat): (r: seq<u64>)
    ensures |r| == ENTRIES
  {
    seq(ENTRIES, j => if 256 <= j < i && j < |kernel| then kernel[j] else 0)
  }

  lemma CopiedNone(kernel: seq<u64>)
    ensures Copied(kernel, 256) == ZeroPage()
  {
  }

  lemma CopiedStep(kernel: seq<u64>, i: nat)
    requires 256 <= i < ENTRIES && |kernel| == ENTRIES
    ensures Copied(kernel, i)[i := kernel[i]] == Copied(kernel, i + 1)
  {
  }

  lemma CopiedAll(kernel: seq<u64>)
    ensures Copied(kernel, ENTRIES) == NewRoot(Some(kernel))
  {
  }

  class Vmm {
    /** Memory, page by page: a page number is a kernel pointer divided by the page size. */
    var mem: map<nat, seq<u64>>
    /** The physical page allocator's frames, true when allocated. */
    var used: seq<bool>
    /** swap_storage, one page of 512 words per slot. */
    const swapStorage: array<seq<u64>>
    /** swap_used. */
    const swapUsed: array<bool>
    /** swap_next. */
    var swapNext: nat
    /** total_mapped_pages. */
    var totalMapped: u64
    /** The page of kernel_pml4, or NULL. */
    var kernelPml4: Option<nat>
    /** The HHDM offset get_hhdm_offset returns. */
    const hhdm: u64

    /** The manager's state as a value. */
    function State(): VmState
      reads this, swapStorage, swapUsed
    {
      VmState(mem, used, swapStorage[..], swapUsed[..], swapNext, totalMapped, kernelPml4, hhdm)
    }

    ghost predicate Ready()
      reads this, swapStorage, swapUsed
    {
      swapStorage.Length == SWAP_PAGES && swapUsed.Length == SWAP_PAGES && Wf(State())
    }

    /**
     * The static initialisers: empty swap area and counters, no
     * kernel_pml4, over the given memory and allocator, with the HHDM
     * offset taken from the boot loader's response or the default.
     */
    constructor (memory: map<nat, seq<u64>>, frames: seq<bool>, response: Option<u64>)
      requires |frames| <= FRAME_LIMIT && HhdmOffset(response) % PAGE_SIZE == 0
      ensures Ready()
      ensures State() == VmState(memory, frames, seq(SWAP_PAGES, _ => ZeroPage()), seq(SWAP_PAGES, _ => false), 0, 0, None,
        HhdmOffset(response))
    {
      hhdm := HhdmOffset(response);
      mem := memory;
      used := frames;
      swapStorage := new seq<u64>[SWAP_PAGES](_ => ZeroPage());
      swapUsed := new bool[SWAP_PAGES](_ => false);
      swapNext := 0;
      totalMapped := 0;
      kernelPml4 := None;
    }

    /**
     * vmm_init: kernel_pml4 becomes phys_to_virt(cr3) and every swap slot
     * is freed. The table is the page that pointer falls in; the C converts
     * the raw CR3 value, so the pointer lies at the start of that page only
     * while the PWT, PCD and PCID bits are clear.
     */
    method Init(cr3: u64)
      requires Ready()
      modifies this, swapUsed
      ensures Ready()
      ensures State() == old(State()).(kernelPml4 := Some(FrameOf(PhysToVirt(cr3, hhdm))), swapUsed := seq(SWAP_PAGES, _ => false))
    {
      kernelPml4 := Some(FrameOf(PhysToVirt(cr3, hhdm)));
      var i := 0;
      while i < SWAP_PAGES
        invariant 0 <= i <= SWAP_PAGES
        invariant forall j :: 0 <= j < i ==> !swapUsed[j]
        invariant mem == old(mem) && used == old(used) && swapNext == old(swapNext)
        invariant totalMapped == old(totalMapped) && kernelPml4 == Some(FrameOf(PhysToVirt(cr3, hhdm)))
      {
        swapUsed[i] := false;
        i := i + 1;
      }
      assert swapUsed[..] == seq(SWAP_PAGES, _ => false);
    }

    /** The three present-bit checks above va's leaf, each level reached through phys_to_virt: the page table, or None at the first missing level. */
    method FindPt(root: nat, va: u64) returns (pt: Option<nat>)
      ensures pt == PtOf(mem, hhdm, root, va)
    {
      var pml4e := Read(mem, root)[Pml4Index(va)];
      if !Present(pml4e) { return None; }
      var pdpe := Read(mem, TableOf(pml4e, hhdm))[PdpIndex(va)];
      if !Present(pdpe) { return None; }
      var pde := Read(mem, TableOf(pdpe, hhdm))[PdIndex(va)];
      if !Present(pde) { return None; }
      return Some(TableOf(pde, hhdm));
    }

    /** One level of vmm_map_page: follow a present entry, or put a zeroed frame under a missing one. */
    method EnsureLevel(table: nat, idx: nat) returns (next: Option<nat>)
      requires Ready() && idx < ENTRIES
      modifies this
      ensures Ready()
      ensures (State(), next) == Ensure(old(State()), table, idx)
    {
      var e := Read(mem, table)[idx];
      if Present(e) {
        return Some(TableOf(e, hhdm));
      }
      var f := FirstFree(used);
      if f.None? {
        return None;
      }
      used := used[f.value := true];
      if f.value == 0 {
        // pmm_alloc's pointer to frame 0 is NULL
        return None;
      }
      mem := mem[f.value := ZeroPage()];
      mem := Write(mem, table, idx, FrameEntry(f.value, hhdm));
      return f;
    }

    /** vmm_map_page(pml4, vaddr, paddr, flags). */
    method MapPage(root: nat, va: u64, paddr: u64, flags: u64)
      requires Ready()
      modifies this
      ensures Ready()
      ensures State() == VmmSpec.MapPage(old(State()), root, va, paddr, flags)
    {
      ghost var s0 := State();
      var pdp := EnsureLevel(root, Pml4Index(va));
      if pdp.None? { return; }
      ghost var s1 := State();
      var pd := EnsureLevel(pdp.value, PdpIndex(va));
      if pd.None? { return; }
      ghost var s2 := State();
      var pt := EnsureLevel(pd.value, PdIndex(va));
      if pt.None? { return; }
      assert Descend(s2, pd.value, va, 2) == (State(), pt);
      assert Descend(s1, pdp.value, va, 1) == (State(), pt);
      assert Descend(s0, root, va, 0) == (State(), pt);
      mem := Write(mem, pt.value, PtIndex(va), LeafEntry(paddr, flags));
      totalMapped := Inc(totalMapped);
    }

    /** vmm_map_cow_page(pml4, vaddr, paddr). */
    method MapCowPage(root: nat, va: u64, paddr: u64)
      requires Ready()
      modifies this
      ensures Ready()
      ensures State() == VmmSpec.MapCowPage(old(State()), root, va, paddr)
    {
      MapPage(root, va, paddr, PTE_COW);
    }

    /** vmm_unmap_page(pml4, vaddr). */
    method UnmapPage(root: nat, va: u64)
      requires Ready()
      modifies this
      ensures Ready()
      ensures State() == VmmSpec.UnmapPage(old(State()), root, va)
    {
      var pt := FindPt(root, va);
      if pt.None? { return; }
      var pte := Read(mem, pt.value)[PtIndex(va)];
      if Present(pte) {
        used := Release(used, TableOf(pte, hhdm));
        totalMapped := Dec(totalMapped);
      }
      mem := Write(mem, pt.value, PtIndex(va), 0);
    }

    /** vmm_new_pml4: a zeroed frame whose entries 256-511 are then copied from kernel_pml4 one by one. */
    method NewPml4() returns (pml4: Option<nat>)
      requires Ready()
      modifies this
      ensures Ready()
      ensures (State(), pml4) == VmmSpec.NewPml4(old(State()))
    {
      var f := FirstFree(used);
      if f.None? {
        return None;
      }
      ghost var s0 := State();
      used := used[f.value := true];
      if f.value == 0 {
        return None;
      }
      mem := mem[f.value := ZeroPage()];
      ghost var s1 := State();
      assert s1 == Install(s0, f.value, ZeroPage());
      if kernelPml4.Some? {
        CopyKernelHalf(f.value, kernelPml4.value);
        assert State() == s1.(mem := s1.mem[f.value := NewRoot(Some(Read(s1.mem, kernelPml4.value)))]);
      } else {
        assert mem == s1.mem[f.value := NewRoot(None)];
      }
      return f;
    }

    /** The copy loop of vmm_new_pml4: entries 256-511 of frame f from frame k, one at a time. */
    method CopyKernelHalf(f: nat, k: nat)
      requires f in mem && mem[f] == ZeroPage()
      modifies this
      ensures mem == old(mem)[f := NewRoot(Some(Read(old(mem), k)))]
      ensures used == old(used) && swapNext == old(swapNext) && totalMapped == old(totalMapped)
      ensures kernelPml4 == old(kernelPml4)
    {
      ghost var kernel := Read(mem, k);
      var i := 256;
      CopiedNone(kernel);
      while i < ENTRIES
        invariant 256 <= i <= ENTRIES
        invariant mem == old(mem)[f := Copied(kernel, i)]
        invariant f == k ==> kernel == ZeroPage()
        invariant used == old(used) && swapNext == old(swapNext) && totalMapped == old(totalMapped)
        invariant kernelPml4 == old(kernelPml4)
      {
        assert Read(mem, k)[i] == kernel[i];
        CopiedStep(kernel, i);
        mem := Write(mem, f, i, Read(mem, k)[i]);
        i := i + 1;
      }
      CopiedAll(kernel);
    }

    /** swap_out_page(vaddr): the cyclic search for a free slot, then the eviction. */
    method SwapOutPage(va: u64) returns (res: int)
      requires Ready() && kernelPml4.Some?
      modifies this, swapStorage, swapUsed
      ensures Ready()
      ensures (State(), res) == SwapOut(old(State()), va)
    {
      var i := 0;
      while i < SWAP_PAGES
        invariant 0 <= i <= SWAP_PAGES
        invariant FreeSlotFrom(swapUsed[..], swapNext, i) == FreeSlot(State())
      {
        var slot := SlotAt(swapNext, i);
        if !swapUsed[slot] {
          assert FreeSlot(State()) == Some(slot);
          res := Evict(va, slot);
          return;
        }
        i := i + 1;
      }
      return -1;
    }

    /** The body of swap_out_page once a free slot has been found. */
    method Evict(va: u64, slot: nat) returns (res: int)
      requires Ready() && kernelPml4.Some? && FreeSlot(State()) == Some(slot)
      modifies this, swapStorage, swapUsed
      ensures Ready()
      ensures (State(), res) == SwapOut(old(State()), va)
    {
      var pt := FindPt(kernelPml4.value, va);
      if pt.None? { return -1; }
      var pte := Read(mem, pt.value)[PtIndex(va)];
      if !Present(pte) { return -1; }
      var frame := TableOf(pte, hhdm);
      swapStorage[slot] := Read(mem, frame);
      swapUsed[slot] := true;
      swapNext := (slot + 1) % SWAP_PAGES;
      mem := Write(mem, pt.value, PtIndex(va), SwapEntry(slot));
      used := Release(used, frame);
      totalMapped := Dec(totalMapped);
      return slot;
    }

    /** swap_in_page(vaddr, swap_slot). */
    method SwapInPage(va: u64, slot: nat) returns (res: int)
      requires Ready() && kernelPml4.Some? && slot < SWAP_PAGES
      modifies this, swapUsed
      ensures Ready()
      ensures (State(), res) == SwapIn(old(State()), va, slot)
    {
      var f := FirstFree(used);
      if f.None? {
        return -1;
      }
      used := used[f.value := true];
      if f.value == 0 {
        return -1;
      }
      mem := mem[f.value := swapStorage[slot]];
      swapUsed[slot] := false;
      var pt := BlindPt(mem, hhdm, kernelPml4.value, va);
      mem := Write(mem, pt, PtIndex(va), FrameEntry(f.value, hhdm));
      totalMapped := Inc(totalMapped);
      return 0;
    }

    /** handle_page_fault(vaddr, error_code). */
    method HandlePageFault(va: u64, errorCode: u64)
      requires Ready() && kernelPml4.Some? && FaultDefined(State(), va)
      modifies this, swapStorage, swapUsed
      ensures Ready()
      ensures State() == HandleFault(old(State()), va, errorCode)
    {
      var pt := FindPt(kernelPml4.value, va);
      if pt.None? { return; }
      var pte := Read(mem, pt.value)[PtIndex(va)];
      if Swapped(pte) {
        var ok := SwapInPage(va, SlotOf(pte));
        if ok == 0 { return; }
      }
      // a failed swap-in changes no entry, so the rest sees the fault's entry
      CopyOrDemand(pt.value, va, pte, errorCode);
    }

    /** The copy-on-write and demand-paging branches of handle_page_fault. */
    method CopyOrDemand(pt: nat, va: u64, pte: u64, errorCode: u64)
      requires Ready() && kernelPml4.Some?
      modifies this, swapStorage, swapUsed
      ensures Ready()
      ensures State() == CowOrDemand(old(State()), pt, va, pte, errorCode)
    {
      var write := (errorCode / FAULT_WRITE) % 2 == 1;
      if Cow(pte) && write {
        var f := FirstFree(used);
        if f.Some? {
          used := used[f.value := true];
          if f.value != 0 {
            mem := mem[f.value := Read(mem, TableOf(pte, hhdm))];
            mem := Write(mem, pt, PtIndex(va), FrameEntry(f.value, hhdm));
            return;
          }
        }
      }
      if !Present(pte) {
        DemandPage(pt, va);
      }
    }

    /** Demand paging: evict a page under pressure, then map a zeroed frame. */
    method DemandPage(pt: nat, va: u64)
      requires Ready() && kernelPml4.Some?
      modifies this, swapStorage, swapUsed
      ensures Ready()
      ensures State() == Demand(old(State()), pt, va)
    {
      if totalMapped >= MAX_MAPPED_PAGES {
        var r := SwapOutPage(Victim(totalMapped));
        if r < 0 { return; }
      }
      var f := FirstFree(used);
      if f.Some? {
        used := used[f.value := true];
        if f.value != 0 {
          mem := mem[f.value := ZeroPage()];
          mem := Write(mem, pt, PtIndex(va), FrameEntry(f.value, hhdm));
          totalMapped := Inc(totalMapped);
        }
      }
    }
  }
}
