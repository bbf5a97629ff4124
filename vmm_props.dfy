/**
 * What the operations of src/kernel/mm/vmm.c guarantee about the
 * translation of an address: mapping makes it translate to the new leaf,
 * unmapping clears it, swapping a page out and back in (directly or
 * through a page fault) restores its contents, and the copy-on-write and
 * demand-paging branches of the fault handler install the right page.
 */
module VmmProps {
  import opened Machine
  import opened Wrappers
  import opened VmmSpec

  // ---------------------------------------------------------------------
  // Free frames
  // ---------------------------------------------------------------------

  /** The number of frames the allocator can still hand out. */
  function CountFree(used: seq<bool>): nat
  {
    if |used| == 0 then 0 else (if used[0] then 0 else 1) + CountFree(used[1..])
  }

  lemma {:induction false} CountFreeZero(used: seq<bool>)
    ensures CountFree(used) == 0 <==> forall g :: 0 <= g < |used| ==> used[g]
  {
    if |used| > 0 {
      CountFreeZero(used[1..]);
      if CountFree(used) == 0 {
        forall g | 0 <= g < |used| ensures used[g] {
          if g > 0 { assert used[g] == used[1..][g - 1]; }
        }
      } else if !used[0] {
      } else {
        var g :| 0 <= g < |used[1..]| && !used[1..][g];
        assert !used[g + 1];
      }
    }
  }

  /** Taking a free frame leaves one fewer. */
  lemma {:induction false} CountFreeTake(used: seq<bool>, f: nat)
    requires f < |used| && !used[f]
    ensures CountFree(used[f := true]) + 1 == CountFree(used)
  {
    if f == 0 {
      assert used[f := true][1..] == used[1..];
    } else {
      assert used[f := true][1..] == used[1..][f - 1 := true];
      CountFreeTake(used[1..], f - 1);
    }
  }

  /** pmm_alloc(1) fails exactly when no frame is free. */
  lemma FirstFreeIffCount(used: seq<bool>)
    ensures FirstFree(used).None? <==> CountFree(used) == 0
  {
    CountFreeZero(used);
  }

  // ---------------------------------------------------------------------
  // vmm_map_page
  // ---------------------------------------------------------------------

  /** A freshly zeroed table has no present entry, so a walk stops at it. */
  lemma WalkFromFresh(mem: map<nat, seq<u64>>, h: u64, f: nat, va: u64, level: nat)
    requires level <= 3 && Read(mem, f) == ZeroPage()
    ensures WalkFrom(mem, h, f, va, level) == [f]
  {
    if level < 3 {
      assert Read(mem, f)[Index(level, va)] == 0;
    }
  }

  /**
   * What a missing entry's allocation leaves behind: the lowest free frame
   * is taken; when it is frame 0, whose pointer is NULL, vmm_map_page stops
   * with the frame marked and nothing else changed.
   */
  lemma EnsureAllocates(st: VmState, t: nat, idx: nat, f: nat)
    requires Wf(st) && idx < ENTRIES && InUse(st, t)
    requires !Present(Read(st.mem, t)[idx]) && FirstFree(st.used) == Some(f)
    ensures f == 0 ==> Ensure(st, t, idx) == (st.(used := st.used[0 := true]), None)
    ensures var s1 := Ensure(st, t, idx).0;
      f != 0 ==>
      Ensure(st, t, idx).1 == Some(f) && s1.used == st.used[f := true] &&
      Read(s1.mem, f) == ZeroPage() && Next(s1.mem, s1.hhdm, t, idx) == Some(f) &&
      (forall g :: g != t && g != f ==> Read(s1.mem, g) == Read(st.mem, g))
  {
    if f != 0 {
      assert f != t;
      FrameEntryDecodes(f, st.hhdm);
    }
  }

  /**
   * Descending from a table whose walk is sound: the descent reaches a
   * page table exactly when there are enough free frames for the missing
   * levels; the walk then reaches it through sound tables that were either
   * on the old walk or free before; allocated frames stay allocated, and
   * allocated frames off the old walk keep their contents.
   */
  ghost predicate Descended(st: VmState, t: nat, va: u64, level: nat)
    requires Wf(st) && level <= 3
  {
    var w := WalkFrom(st.mem, st.hhdm, t, va, level);
    var d := Descend(st, t, va, level);
    var r := d.0;
    var w2 := WalkFrom(r.mem, r.hhdm, t, va, level);
    (d.1.Some? <==> CountFree(st.used) >= 4 - level - |w|) &&
    (d.1.None? ==> |w2| < 4 - level && FirstFree(r.used).None?) &&
    (d.1.Some? ==>
      |w2| == 4 - level && w2[3 - level] == d.1.value && Sound(r, w2) &&
      forall x :: x in w2 ==> x in w || !InUse(st, x)) &&
    (forall g :: InUse(st, g) ==> InUse(r, g)) &&
    (forall g :: InUse(st, g) && g !in w ==> Read(r.mem, g) == Read(st.mem, g))
  }

  /** Descended holds of every descent from a sound walk. */
  lemma {:induction false} DescendFacts(st: VmState, t: nat, va: u64, level: nat)
    requires Wf(st) && level <= 3 && Sound(st, WalkFrom(st.mem, st.hhdm, t, va, level)) && InUse(st, 0)
    ensures Descended(st, t, va, level)
    decreases 3 - level
  {
    var w := WalkFrom(st.mem, st.hhdm, t, va, level);
    if level < 3 {
      var idx := Index(level, va);
      match Next(st.mem, st.hhdm, t, idx)
      case Some(n) =>
        DescendThrough(st, t, va, level, n);
      case None =>
        match FirstFree(st.used)
        case None =>
          FirstFreeIffCount(st.used);
        case Some(f) =>
          DescendAllocating(st, t, va, level, f);
    }
  }

  /** DescendFacts when the entry at this level is present: the descent goes on from the next table unchanged. */
  lemma {:induction false} DescendThrough(st: VmState, t: nat, va: u64, level: nat, n: nat)
    requires Wf(st) && level < 3 && Sound(st, WalkFrom(st.mem, st.hhdm, t, va, level)) && InUse(st, 0)
    requires Next(st.mem, st.hhdm, t, Index(level, va)) == Some(n)
    ensures Descended(st, t, va, level)
    decreases 3 - level, 0
  {
    var w := WalkFrom(st.mem, st.hhdm, t, va, level);
    var w' := WalkFrom(st.mem, st.hhdm, n, va, level + 1);
    assert w == [t] + w';
    SoundTail(st, t, w');
    DescendFacts(st, n, va, level + 1);
    LiftDescended(st, st, t, n, va, level);
  }

  /** DescendFacts when the entry at this level is missing and frame f is free: the descent goes on from f. */
  lemma {:induction false} DescendAllocating(st: VmState, t: nat, va: u64, level: nat, f: nat)
    requires Wf(st) && level < 3 && Sound(st, WalkFrom(st.mem, st.hhdm, t, va, level)) && InUse(st, 0)
    requires Next(st.mem, st.hhdm, t, Index(level, va)).None? && FirstFree(st.used) == Some(f)
    ensures Descended(st, t, va, level)
    decreases 3 - level, 0
  {
    AllocateStep(st, t, va, level, f);
    var s1 := Ensure(st, t, Index(level, va)).0;
    DescendFacts(s1, f, va, level + 1);
    LiftDescended(st, s1, t, f, va, level);
  }

  /** The allocation at a missing entry: the state after it relates to st and t as LiftDescended asks, with f's walk just [f]. */
  lemma AllocateStep(st: VmState, t: nat, va: u64, level: nat, f: nat)
    requires Wf(st) && level < 3 && Sound(st, WalkFrom(st.mem, st.hhdm, t, va, level)) && InUse(st, 0)
    requires Next(st.mem, st.hhdm, t, Index(level, va)).None? && FirstFree(st.used) == Some(f)
    ensures var s1 := Ensure(st, t, Index(level, va)).0;
      Wf(s1) && Sound(s1, WalkFrom(s1.mem, s1.hhdm, f, va, level + 1)) &&
      Descend(st, t, va, level) == Descend(s1, f, va, level + 1) &&
      Next(s1.mem, s1.hhdm, t, Index(level, va)) == Some(f) &&
      CountFree(st.used) + |WalkFrom(st.mem, st.hhdm, t, va, level)| == CountFree(s1.used) + 1 + |WalkFrom(s1.mem, s1.hhdm, f, va, level + 1)| &&
      InUse(s1, t) && t !in WalkFrom(s1.mem, s1.hhdm, f, va, level + 1) &&
      (forall x :: x in WalkFrom(s1.mem, s1.hhdm, f, va, level + 1) ==> x in WalkFrom(st.mem, st.hhdm, t, va, level) || !InUse(st, x)) &&
      (forall g :: InUse(st, g) ==> InUse(s1, g)) &&
      (forall g :: InUse(st, g) && g !in WalkFrom(st.mem, st.hhdm, t, va, level) ==> Read(s1.mem, g) == Read(st.mem, g))
  {
    var w := WalkFrom(st.mem, st.hhdm, t, va, level);
    assert w == [t];
    assert InUse(st, t) by { assert w[0] == t; }
    var idx := Index(level, va);
    EnsureAllocates(st, t, idx, f);
    var s1 := Ensure(st, t, idx).0;
    WalkFromFresh(s1.mem, s1.hhdm, f, va, level + 1);
    assert Sound(s1, [f]);
    CountFreeTake(st.used, f);
  }

  /**
   * One level of the induction: when the descent from t is the descent
   * from n in s1 one level down, and s1 and n relate to st and t as both
   * kinds of step leave them, Descended carries up from n to t.
   */
  lemma LiftDescended(st: VmState, s1: VmState, t: nat, n: nat, va: u64, level: nat)
    requires Wf(st) && Wf(s1) && level < 3
    requires Descend(st, t, va, level) == Descend(s1, n, va, level + 1)
    requires Descended(s1, n, va, level + 1)
    requires Next(s1.mem, s1.hhdm, t, Index(level, va)) == Some(n)
    requires CountFree(st.used) + |WalkFrom(st.mem, st.hhdm, t, va, level)| == CountFree(s1.used) + 1 + |WalkFrom(s1.mem, s1.hhdm, n, va, level + 1)|
    requires InUse(s1, t) && t !in WalkFrom(s1.mem, s1.hhdm, n, va, level + 1)
    requires forall x :: x in WalkFrom(s1.mem, s1.hhdm, n, va, level + 1) ==> x in WalkFrom(st.mem, st.hhdm, t, va, level) || !InUse(st, x)
    requires forall g :: InUse(st, g) ==> InUse(s1, g)
    requires forall g :: InUse(st, g) && g !in WalkFrom(st.mem, st.hhdm, t, va, level) ==> Read(s1.mem, g) == Read(st.mem, g)
    ensures Descended(st, t, va, level)
  {
    var r := Descend(s1, n, va, level + 1).0;
    var w1 := WalkFrom(s1.mem, s1.hhdm, n, va, level + 1);
    assert Read(r.mem, t) == Read(s1.mem, t);
    var w2 := WalkFrom(r.mem, r.hhdm, n, va, level + 1);
    assert WalkFrom(r.mem, r.hhdm, t, va, level) == [t] + w2;
    if Descend(s1, n, va, level + 1).1.Some? {
      assert t !in w2;
      SoundCons(r, t, w2);
    }
  }

  lemma SoundTail(st: VmState, t: nat, w: seq<nat>)
    requires Sound(st, [t] + w)
    ensures Sound(st, w) && InUse(st, t) && t !in w
  {
    var v := [t] + w;
    assert v[0] == t;
    forall k | 0 <= k < |w| ensures InUse(st, w[k]) && w[k] != t { assert w[k] == v[k + 1]; }
    forall k, l | 0 <= k < l < |w| ensures w[k] != w[l] { assert w[k] == v[k + 1] && w[l] == v[l + 1]; }
  }

  lemma SoundCons(st: VmState, t: nat, w: seq<nat>)
    requires InUse(st, t) && t !in w && Sound(st, w)
    ensures Sound(st, [t] + w)
  {
    var v := [t] + w;
    forall k, l | 0 <= k < l < |v| ensures v[k] != v[l] {
      assert v[l] == w[l - 1];
      if k > 0 { assert v[k] == w[k - 1]; }
    }
  }

  /**
   * vmm_map_page on a sound walk, when the free frames cover the missing
   * levels: va translates to the new leaf, the walk stays sound and the
   * counter grows by one.
   */
  lemma MapThenTranslate(st: VmState, root: nat, va: u64, paddr: u64, flags: u64)
    requires Wf(st) && WalkSound(st, root, va) && InUse(st, 0)
    requires CountFree(st.used) >= 4 - |Walk(st.mem, st.hhdm, root, va)|
    ensures var r := MapPage(st, root, va, paddr, flags);
      Translate(r.mem, r.hhdm, root, va) == Some(LeafEntry(paddr, flags)) && WalkSound(r, root, va) &&
      r.total == Inc(st.total)
  {
    DescendReaches(st, root, va);
    var d := Descend(st, root, va, 0);
    var leaf := LeafEntry(paddr, flags);
    var r := MapPage(st, root, va, paddr, flags);
    LeafWritten(d.0, r, root, va, leaf);
  }

  /** With enough free frames the descent of vmm_map_page reaches a page table along a sound walk. */
  lemma DescendReaches(st: VmState, root: nat, va: u64)
    requires Wf(st) && WalkSound(st, root, va) && InUse(st, 0)
    requires CountFree(st.used) >= 4 - |Walk(st.mem, st.hhdm, root, va)|
    ensures var d := Descend(st, root, va, 0);
      d.1.Some? && |Walk(d.0.mem, d.0.hhdm, root, va)| == 4 && Walk(d.0.mem, d.0.hhdm, root, va)[3] == d.1.value &&
      Sound(d.0, Walk(d.0.mem, d.0.hhdm, root, va)) && d.0.total == st.total
  {
    DescendFacts(st, root, va, 0);
  }

  /**
   * vmm_map_page on a sound walk, when the free frames do not cover the
   * missing levels: va still has no translation, the allocator is
   * exhausted and the counter is unchanged.
   */
  lemma MapExhausted(st: VmState, root: nat, va: u64, paddr: u64, flags: u64)
    requires Wf(st) && WalkSound(st, root, va) && InUse(st, 0)
    requires CountFree(st.used) < 4 - |Walk(st.mem, st.hhdm, root, va)|
    ensures var r := MapPage(st, root, va, paddr, flags);
      Translate(r.mem, r.hhdm, root, va).None? && FirstFree(r.used).None? && r.total == st.total
  {
    DescendFacts(st, root, va, 0);
  }

  /**
   * vmm_map_page on a sound walk releases no frame, changes no allocated
   * frame off the old walk, and leaves the swap state alone.
   */
  lemma MapKeepsOthers(st: VmState, root: nat, va: u64, paddr: u64, flags: u64)
    requires Wf(st) && WalkSound(st, root, va) && InUse(st, 0)
    ensures var r := MapPage(st, root, va, paddr, flags);
      (forall g :: InUse(st, g) ==> InUse(r, g)) &&
      (forall g :: InUse(st, g) && g !in Walk(st.mem, st.hhdm, root, va) ==> Read(r.mem, g) == Read(st.mem, g)) &&
      r.swapStore == st.swapStore && r.swapUsed == st.swapUsed && r.kernelPml4 == st.kernelPml4
  {
    DescendFacts(st, root, va, 0);
    var d := Descend(st, root, va, 0);
    if d.1.Some? {
      assert d.1.value in WalkFrom(d.0.mem, d.0.hhdm, root, va, 0);
    }
  }

  /** Writing a leaf into the page table of a sound, complete walk makes va translate to it and keeps the walk sound. */
  lemma LeafWritten(s: VmState, r: VmState, root: nat, va: u64, leaf: u64)
    requires |Walk(s.mem, s.hhdm, root, va)| == 4 && Sound(s, Walk(s.mem, s.hhdm, root, va))
    requires r.mem == Write(s.mem, Walk(s.mem, s.hhdm, root, va)[3], PtIndex(va), leaf)
    ensures Walk(r.mem, s.hhdm, root, va) == Walk(s.mem, s.hhdm, root, va)
    ensures Translate(r.mem, s.hhdm, root, va) == Some(leaf)
    ensures r.used == s.used && r.hhdm == s.hhdm ==> WalkSound(r, root, va)
  {
    var w := Walk(s.mem, s.hhdm, root, va);
    forall k | 0 <= k < |w| && k < 3 ensures Read(r.mem, w[k]) == Read(s.mem, w[k]) {
      assert w[k] != w[3];
    }
    WalkFrame(s.mem, r.mem, s.hhdm, root, va, 0);
  }

  /** vmm_map_cow_page leaves va translating to a present, read-only, copy-on-write leaf when the frames suffice. */
  lemma MapCowIsReadOnly(st: VmState, root: nat, va: u64, paddr: u64)
    requires Wf(st) && WalkSound(st, root, va) && InUse(st, 0)
    requires CountFree(st.used) >= 4 - |Walk(st.mem, st.hhdm, root, va)|
    ensures var t := Translate(MapCowPage(st, root, va, paddr).mem, st.hhdm, root, va);
      t.Some? && Present(t.value) && Cow(t.value) && !Writable(t.value) && FrameOf(t.value) == paddr / PAGE_SIZE
  {
    MapThenTranslate(st, root, va, paddr, PTE_COW);
    CowLeafIsReadOnly(paddr);
    LeafEntryDecodes(paddr, PTE_COW);
  }

  /**
   * vmm_unmap_page on a sound, complete walk leaves va's leaf reading
   * zero; with a level missing nothing changes.
   */
  lemma UnmapClears(st: VmState, root: nat, va: u64)
    requires Wf(st) && WalkSound(st, root, va)
    ensures PtOf(st.mem, st.hhdm, root, va).None? ==> UnmapPage(st, root, va) == st
    ensures PtOf(st.mem, st.hhdm, root, va).Some? ==> Translate(UnmapPage(st, root, va).mem, st.hhdm, root, va) == Some(0)
  {
    if PtOf(st.mem, st.hhdm, root, va).Some? {
      var w := Walk(st.mem, st.hhdm, root, va);
      var r := UnmapPage(st, root, va);
      forall k | 0 <= k < |w| && k < 3 ensures Read(r.mem, w[k]) == Read(st.mem, w[k]) {
        assert w[k] != w[3];
      }
      WalkFrame(st.mem, r.mem, st.hhdm, root, va, 0);
    }
  }

  /**
   * vmm_unmap_page releases the frame of phys_to_virt of a present leaf's
   * address (nothing when that frame lies past the allocator's) and drops
   * the counter; a leaf that is not present (a swapped one included) is
   * cleared without releasing anything, so a swapped page's slot stays
   * taken.
   */
  lemma UnmapReleases(st: VmState, root: nat, va: u64)
    requires Wf(st) && Translate(st.mem, st.hhdm, root, va).Some?
    ensures var r := UnmapPage(st, root, va);
      var leaf := Translate(st.mem, st.hhdm, root, va).value;
      r.swapUsed == st.swapUsed && r.swapStore == st.swapStore &&
      (Present(leaf) ==> r.used == Release(st.used, TableOf(leaf, st.hhdm)) && r.total == Dec(st.total)) &&
      (!Present(leaf) ==> r.used == st.used && r.total == st.total)
  {
  }

  /** Unmapping a present leaf of a sound walk: va then translates to zero, the leaf's page is released and the counter drops. */
  lemma UnmapPresent(m: VmState, root: nat, va: u64, leaf: u64)
    requires Wf(m) && WalkSound(m, root, va) && Translate(m.mem, m.hhdm, root, va) == Some(leaf) && Present(leaf)
    ensures var r := UnmapPage(m, root, va);
      Translate(r.mem, r.hhdm, root, va) == Some(0) && r.total == Dec(m.total) && r.used == Release(m.used, TableOf(leaf, m.hhdm))
  {
    UnmapClears(m, root, va);
    UnmapReleases(m, root, va);
  }

  /**
   * Unmapping what was just mapped leaves va translating to zero and the
   * counter where it was. What is released is the frame of
   * phys_to_virt(paddr): pmm_free is handed the HHDM pointer of paddr.
   */
  lemma MapThenUnmap(st: VmState, root: nat, va: u64, paddr: u64, flags: u64)
    requires Wf(st) && WalkSound(st, root, va) && InUse(st, 0)
    requires CountFree(st.used) >= 4 - |Walk(st.mem, st.hhdm, root, va)|
    ensures var m := MapPage(st, root, va, paddr, flags);
      var r := UnmapPage(m, root, va);
      Translate(r.mem, r.hhdm, root, va) == Some(0) && r.total == st.total &&
      r.used == Release(m.used, FrameOf(PhysToVirt(AddressOf(paddr), st.hhdm)))
  {
    var m := MapPage(st, root, va, paddr, flags);
    MapThenTranslate(st, root, va, paddr, flags);
    LeafEntryDecodes(paddr, flags);
    UnmapPresent(m, root, va, LeafEntry(paddr, flags));
  }

  /**
   * As written, with the default HHDM offset: mapping va to the physical
   * address 0x200000 and unmapping it hands pmm_free the pointer
   * 0xffff800000200000, whose frame 0xffff800000200 lies past every
   * allocator of at most that many frames, so nothing is released and
   * frame 0x200 stays used.
   */
  lemma MapThenUnmapKeepsFrame(st: VmState, root: nat, va: u64, flags: u64)
    requires Wf(st) && WalkSound(st, root, va) && InUse(st, 0) && st.hhdm == DEFAULT_HHDM
    requires CountFree(st.used) >= 4 - |Walk(st.mem, st.hhdm, root, va)|
    requires 0x200 < |st.used| <= 0xf_fff8_0000_0200 && st.used[0x200]
    ensures var m := MapPage(st, root, va, 0x20_0000, flags);
      var r := UnmapPage(m, root, va);
      Translate(r.mem, r.hhdm, root, va) == Some(0) && r.used == m.used && r.used[0x200]
  {
    MapThenUnmap(st, root, va, 0x20_0000, flags);
    MapKeepsOthers(st, root, va, 0x20_0000, flags);
    assert InUse(st, 0x200);
    assert FrameOf(PhysToVirt(AddressOf(0x20_0000), DEFAULT_HHDM)) == 0xf_fff8_0000_0200;
  }

  /**
   * vmm_new_pml4: it fails, changing nothing, exactly when no frame is
   * free. Otherwise the new table is a frame that was free, its lower
   * half is empty, its upper half is kernel_pml4's (empty without one),
   * and no other frame changes.
   */
  lemma NewPml4Layout(st: VmState)
    requires Wf(st) && InUse(st, 0) && (st.kernelPml4.Some? ==> InUse(st, st.kernelPml4.value))
    ensures var (r, o) := NewPml4(st);
      (o.None? <==> CountFree(st.used) == 0) && (o.None? ==> r == st) &&
      (o.Some? ==>
        !InUse(st, o.value) && InUse(r, o.value) &&
        (forall i :: 0 <= i < 256 ==> Read(r.mem, o.value)[i] == 0) &&
        (forall i :: 256 <= i < ENTRIES ==>
          Read(r.mem, o.value)[i] == if st.kernelPml4.Some? then Read(st.mem, st.kernelPml4.value)[i] else 0) &&
        (forall g :: g != o.value ==> Read(r.mem, g) == Read(st.mem, g)))
  {
    FirstFreeIffCount(st.used);
  }

  /** Two roots whose entries for va agree, over the same tables below them, translate va alike. */
  lemma SameTopSameTranslate(m1: map<nat, seq<u64>>, m2: map<nat, seq<u64>>, h: u64, t1: nat, t2: nat, va: u64)
    requires Read(m2, t2)[Pml4Index(va)] == Read(m1, t1)[Pml4Index(va)]
    requires forall j :: 1 <= j < |Walk(m1, h, t1, va)| ==> Read(m2, Walk(m1, h, t1, va)[j]) == Read(m1, Walk(m1, h, t1, va)[j])
    ensures Translate(m2, h, t2, va) == Translate(m1, h, t1, va)
  {
    var w := Walk(m1, h, t1, va);
    match Next(m1, h, t1, Pml4Index(va))
    case None =>
    case Some(n) =>
      var w' := WalkFrom(m1, h, n, va, 1);
      assert w == [t1] + w';
      forall j | 0 <= j < |w'| && 1 + j < 3 ensures Read(m2, w'[j]) == Read(m1, w'[j]) {
        assert w'[j] == w[j + 1];
      }
      WalkFrame(m1, m2, h, n, va, 1);
      if |w| == 4 {
        assert w[3] == w'[2];
      }
  }

  /** A table made by vmm_new_pml4 translates every upper-half address exactly as kernel_pml4 does, and no lower-half one. */
  lemma NewPml4SharesKernelHalf(st: VmState, va: u64)
    requires Wf(st) && st.kernelPml4.Some? && WalkSound(st, st.kernelPml4.value, va)
    requires NewPml4(st).1.Some?
    ensures var (r, o) := NewPml4(st);
      Translate(r.mem, r.hhdm, o.value, va) == if Pml4Index(va) >= 256 then Translate(st.mem, st.hhdm, st.kernelPml4.value, va) else None
  {
    var k := st.kernelPml4.value;
    var (r, f) := (NewPml4(st).0, NewPml4(st).1.value);
    var w := Walk(st.mem, st.hhdm, k, va);
    assert InUse(st, k) by { assert w[0] == k; }
    assert InUse(st, 0) by { assert Alloc(st.used).Some?; }
    NewPml4Layout(st);
    if Pml4Index(va) >= 256 {
      assert Read(r.mem, f)[Pml4Index(va)] == Read(st.mem, k)[Pml4Index(va)];
      forall j | 1 <= j < |w| ensures Read(r.mem, w[j]) == Read(st.mem, w[j]) {
        assert InUse(st, w[j]);
      }
      SameTopSameTranslate(st.mem, r.mem, st.hhdm, k, f, va);
    } else {
      assert Read(r.mem, f)[Pml4Index(va)] == 0;
    }
  }

  // ---------------------------------------------------------------------
  // Swapping
  // ---------------------------------------------------------------------

  /** How far slot s lies after slot next, going round the 1024 slots. */
  function Offset(next: nat, s: nat): (r: nat)
    requires next < SWAP_PAGES && s < SWAP_PAGES
    ensures r < SWAP_PAGES && SlotAt(next, r) == s
  {
    if s >= next then s - next else s + SWAP_PAGES - next
  }

  lemma OffsetOfSlotAt(next: nat, i: nat)
    requires next < SWAP_PAGES && i < SWAP_PAGES
    ensures Offset(next, SlotAt(next, i)) == i
  {
    if next + i >= SWAP_PAGES {
      assert SlotAt(next, i) == next + i - SWAP_PAGES;
    }
  }

  lemma {:induction false} FreeSlotFromFacts(su: seq<bool>, next: nat, i: nat)
    requires |su| == SWAP_PAGES && next < SWAP_PAGES && i <= SWAP_PAGES
    ensures FreeSlotFrom(su, next, i).Some? ==>
      var s := FreeSlotFrom(su, next, i).value;
      !su[s] && i <= Offset(next, s) && forall j :: i <= j < Offset(next, s) ==> su[SlotAt(next, j)]
    ensures FreeSlotFrom(su, next, i).None? ==> forall j :: i <= j < SWAP_PAGES ==> su[SlotAt(next, j)]
    decreases SWAP_PAGES - i
  {
    if i < SWAP_PAGES {
      var s := SlotAt(next, i);
      if su[s] {
        FreeSlotFromFacts(su, next, i + 1);
      } else {
        OffsetOfSlotAt(next, i);
      }
    }
  }

  /**
   * swap_out_page's search: the slot it picks is free and every slot
   * from swap_next up to it (going round) is taken; it finds none
   * exactly when all 1024 slots are taken.
   */
  lemma FreeSlotIsFirst(st: VmState)
    requires Wf(st)
    ensures FreeSlot(st).Some? ==>
      var s := FreeSlot(st).value;
      !st.swapUsed[s] && forall j :: 0 <= j < Offset(st.swapNext, s) ==> st.swapUsed[SlotAt(st.swapNext, j)]
    ensures FreeSlot(st).None? <==> forall s :: 0 <= s < SWAP_PAGES ==> st.swapUsed[s]
  {
    FreeSlotFromFacts(st.swapUsed, st.swapNext, 0);
    if FreeSlot(st).None? {
      forall s | 0 <= s < SWAP_PAGES ensures st.swapUsed[s] {
        assert SlotAt(st.swapNext, Offset(st.swapNext, s)) == s;
      }
    } else {
      var s := FreeSlot(st).value;
      assert !st.swapUsed[s];
    }
  }

  /**
   * swap_out_page on a sound walk of kernel_pml4: it succeeds exactly
   * when a slot is free and va's leaf is present. Then the slot is the
   * one the search picks, it holds the page's words and is taken, va's
   * leaf names the slot, the page's frame is released and the counter
   * drops. On failure nothing changes.
   */
  lemma SwapOutStores(st: VmState, va: u64)
    requires Wf(st) && st.kernelPml4.Some? && WalkSound(st, st.kernelPml4.value, va)
    ensures var (r, res) := SwapOut(st, va);
      var t := Translate(st.mem, st.hhdm, st.kernelPml4.value, va);
      (res >= 0 <==> FreeSlot(st).Some? && t.Some? && Present(t.value)) &&
      (res < 0 ==> r == st && res == -1) &&
      (res >= 0 ==>
        res == FreeSlot(st).value && r.swapUsed == st.swapUsed[res := true] &&
        r.swapStore == st.swapStore[res := Read(st.mem, TableOf(t.value, st.hhdm))] &&
        Translate(r.mem, r.hhdm, st.kernelPml4.value, va) == Some(SwapEntry(res)) &&
        r.used == Release(st.used, TableOf(t.value, st.hhdm)) && r.total == Dec(st.total))
  {
    var k := st.kernelPml4.value;
    var (r, res) := SwapOut(st, va);
    if res >= 0 {
      LeafWritten(st, r, k, va, SwapEntry(res));
    }
  }

  /** swap_in_page takes its page table from the entries alone; on a complete walk that is the walk's page table. */
  lemma BlindPtFollowsWalk(mem: map<nat, seq<u64>>, h: u64, root: nat, va: u64)
    requires |Walk(mem, h, root, va)| == 4
    ensures BlindPt(mem, h, root, va) == Walk(mem, h, root, va)[3]
  {
  }

  /**
   * swap_in_page on a complete, sound walk of kernel_pml4 with frame f
   * free: the slot's words land in f, va's leaf names f as present and
   * writable, the slot is free again and the counter grows.
   */
  lemma SwapInRestores(st: VmState, va: u64, slot: nat, f: nat)
    requires Wf(st) && st.kernelPml4.Some? && slot < SWAP_PAGES
    requires WalkSound(st, st.kernelPml4.value, va) && |Walk(st.mem, st.hhdm, st.kernelPml4.value, va)| == 4
    requires InUse(st, 0) && FirstFree(st.used) == Some(f) && |st.swapStore[slot]| == ENTRIES
    ensures var (r, res) := SwapIn(st, va, slot);
      res == 0 && Translate(r.mem, r.hhdm, st.kernelPml4.value, va) == Some(FrameEntry(f, st.hhdm)) &&
      Read(r.mem, f) == st.swapStore[slot] && InUse(r, f) &&
      r.swapUsed == st.swapUsed[slot := false] && r.swapStore == st.swapStore && r.total == Inc(st.total)
  {
    var k := st.kernelPml4.value;
    var w := Walk(st.mem, st.hhdm, k, va);
    var s1 := Install(st, f, st.swapStore[slot]).(swapUsed := st.swapUsed[slot := false]);
    forall j | 0 <= j < |w| && j < 3 ensures Read(s1.mem, w[j]) == Read(st.mem, w[j]) {
      assert InUse(st, w[j]);
    }
    WalkFrame(st.mem, s1.mem, st.hhdm, k, va, 0);
    BlindPtFollowsWalk(s1.mem, s1.hhdm, k, va);
    var r := SwapIn(st, va, slot).0;
    assert InUse(st, w[3]);
    LeafWritten(s1, r, k, va, FrameEntry(f, st.hhdm));
  }

  /**
   * Swapping a mapped page out and back in: va ends up naming a new frame,
   * present and writable, that holds the page's old words; the slot is
   * free again and the counter is back where it was. A page that was
   * read-only or copy-on-write comes back writable. The page's frame must
   * be one of the allocator's, so that the swap-out frees it.
   */
  lemma SwapOutThenIn(st: VmState, va: u64)
    requires Wf(st) && st.kernelPml4.Some? && WalkSound(st, st.kernelPml4.value, va) && InUse(st, 0)
    requires Translate(st.mem, st.hhdm, st.kernelPml4.value, va).Some? && Present(Translate(st.mem, st.hhdm, st.kernelPml4.value, va).value)
    requires var data := TableOf(Translate(st.mem, st.hhdm, st.kernelPml4.value, va).value, st.hhdm);
      0 < data < |st.used| && InUse(st, data) && data !in Walk(st.mem, st.hhdm, st.kernelPml4.value, va)
    requires FreeSlot(st).Some?
    ensures var (s1, slot) := SwapOut(st, va);
      slot >= 0 && FirstFree(s1.used).Some? &&
      var (r, res) := SwapIn(s1, va, slot);
      var f := FirstFree(s1.used).value;
      res == 0 && Translate(r.mem, r.hhdm, st.kernelPml4.value, va) == Some(FrameEntry(f, st.hhdm)) &&
      Writable(FrameEntry(f, st.hhdm)) &&
      Read(r.mem, f) == Read(st.mem, TableOf(Translate(st.mem, st.hhdm, st.kernelPml4.value, va).value, st.hhdm)) &&
      r.swapUsed == st.swapUsed && r.total == st.total
  {
    var k := st.kernelPml4.value;
    var data := TableOf(Translate(st.mem, st.hhdm, k, va).value, st.hhdm);
    SwapOutStores(st, va);
    FreeSlotIsFirst(st);
    var (s1, slot) := SwapOut(st, va);
    SwappedOutWalk(st, s1, va, slot, data);
    var f := FirstFree(s1.used).value;
    assert InUse(s1, 0) by { assert s1.used[0] == st.used[0]; }
    SwapInRestores(s1, va, slot, f);
    FrameEntryDecodes(f, st.hhdm);
    IncDecWrap(st.total);
    assert s1.swapUsed[slot := false] == st.swapUsed;
  }

  /** After swap_out_page the walk is still complete and sound and a frame is free. */
  lemma SwappedOutWalk(st: VmState, s1: VmState, va: u64, slot: nat, data: nat)
    requires Wf(st) && st.kernelPml4.Some? && WalkSound(st, st.kernelPml4.value, va)
    requires |Walk(st.mem, st.hhdm, st.kernelPml4.value, va)| == 4
    requires data < |st.used| && InUse(st, data) && data !in Walk(st.mem, st.hhdm, st.kernelPml4.value, va)
    requires s1.used == Release(st.used, data) && s1.hhdm == st.hhdm && slot < SWAP_PAGES
    requires s1.mem == Write(st.mem, Walk(st.mem, st.hhdm, st.kernelPml4.value, va)[3], PtIndex(va), SwapEntry(slot))
    ensures Walk(s1.mem, s1.hhdm, st.kernelPml4.value, va) == Walk(st.mem, st.hhdm, st.kernelPml4.value, va)
    ensures WalkSound(s1, st.kernelPml4.value, va) && FirstFree(s1.used).Some?
  {
    LeafWritten(st, s1, st.kernelPml4.value, va, SwapEntry(slot));
    assert !s1.used[data];
  }

  // ---------------------------------------------------------------------
  // handle_page_fault
  // ---------------------------------------------------------------------

  /** Filling a free frame and pointing va's leaf at it, present and writable. */
  lemma InstallAndPoint(st: VmState, m: map<nat, seq<u64>>, root: nat, va: u64, f: nat, page: seq<u64>)
    requires WalkSound(st, root, va) && |Walk(st.mem, st.hhdm, root, va)| == 4
    requires Wf(st) && f < |st.used| && !InUse(st, f) && |page| == ENTRIES
    requires m == Write(st.mem[f := page], Walk(st.mem, st.hhdm, root, va)[3], PtIndex(va), FrameEntry(f, st.hhdm))
    ensures Translate(m, st.hhdm, root, va) == Some(FrameEntry(f, st.hhdm)) && Read(m, f) == page
  {
    var w := Walk(st.mem, st.hhdm, root, va);
    var m1 := st.mem[f := page];
    forall j | 0 <= j < |w| && j < 3 ensures Read(m1, w[j]) == Read(st.mem, w[j]) {
      assert InUse(st, w[j]);
    }
    WalkFrame(st.mem, m1, st.hhdm, root, va, 0);
    assert InUse(st, w[3]);
    var s1 := st.(mem := m1);
    LeafWritten(s1, s1.(mem := m), root, va, FrameEntry(f, st.hhdm));
  }

  /**
   * A write fault on a copy-on-write leaf with a frame free: va gets a
   * private copy of the page, present and writable; the counter is
   * unchanged and the shared frame is not released.
   */
  lemma FaultCopiesOnWrite(st: VmState, va: u64, errorCode: u64)
    requires Wf(st) && st.kernelPml4.Some? && WalkSound(st, st.kernelPml4.value, va)
    requires var t := Translate(st.mem, st.hhdm, st.kernelPml4.value, va);
      t.Some? && Cow(t.value) && !Swapped(t.value)
    requires (errorCode / FAULT_WRITE) % 2 == 1 && InUse(st, 0) && FirstFree(st.used).Some?
    ensures FaultDefined(st, va)
    ensures var r := HandleFault(st, va, errorCode);
      var f := FirstFree(st.used).value;
      var old_frame := TableOf(Translate(st.mem, st.hhdm, st.kernelPml4.value, va).value, st.hhdm);
      Translate(r.mem, r.hhdm, st.kernelPml4.value, va) == Some(FrameEntry(f, st.hhdm)) && Writable(FrameEntry(f, st.hhdm)) &&
      Read(r.mem, f) == Read(st.mem, old_frame) && InUse(r, f) && r.total == st.total &&
      (forall g :: InUse(st, g) ==> InUse(r, g))
  {
    var k := st.kernelPml4.value;
    var pte := Translate(st.mem, st.hhdm, k, va).value;
    var f := FirstFree(st.used).value;
    var r := HandleFault(st, va, errorCode);
    InstallAndPoint(st, r.mem, k, va, f, Read(st.mem, TableOf(pte, st.hhdm)));
    FrameEntryDecodes(f, st.hhdm);
  }

  /**
   * A fault on a missing leaf (neither swapped nor a copy-on-write write)
   * below the pressure limit with a frame free: va gets a zeroed frame,
   * present and writable, and the counter grows.
   */
  lemma FaultZeroFills(st: VmState, va: u64, errorCode: u64)
    requires Wf(st) && st.kernelPml4.Some? && WalkSound(st, st.kernelPml4.value, va)
    requires var t := Translate(st.mem, st.hhdm, st.kernelPml4.value, va);
      t.Some? && !Present(t.value) && !Swapped(t.value) && !(Cow(t.value) && (errorCode / FAULT_WRITE) % 2 == 1)
    requires st.total < MAX_MAPPED_PAGES && InUse(st, 0) && FirstFree(st.used).Some?
    ensures FaultDefined(st, va)
    ensures var r := HandleFault(st, va, errorCode);
      var f := FirstFree(st.used).value;
      Translate(r.mem, r.hhdm, st.kernelPml4.value, va) == Some(FrameEntry(f, st.hhdm)) && Read(r.mem, f) == ZeroPage() &&
      InUse(r, f) && r.total == Inc(st.total) && r.swapUsed == st.swapUsed
  {
    var k := st.kernelPml4.value;
    var f := FirstFree(st.used).value;
    var r := HandleFault(st, va, errorCode);
    InstallAndPoint(st, r.mem, k, va, f, ZeroPage());
  }

  /**
   * The faults handle_page_fault leaves alone: a missing upper level; a
   * present leaf that is neither swapped nor hit by a write while
   * copy-on-write; a missing leaf when no frame is free below the
   * pressure limit; and a missing leaf under pressure when the eviction
   * fails.
   */
  lemma FaultLeavesAlone(st: VmState, va: u64, errorCode: u64)
    requires Wf(st) && st.kernelPml4.Some? && FaultDefined(st, va)
    ensures var t := Translate(st.mem, st.hhdm, st.kernelPml4.value, va);
      var write := (errorCode / FAULT_WRITE) % 2 == 1;
      var r := HandleFault(st, va, errorCode);
      (t.None? ==> r == st) &&
      (t.Some? && Present(t.value) && !Swapped(t.value) && !(Cow(t.value) && write) ==> r == st) &&
      ((t.Some? && !Present(t.value) && !Swapped(t.value) && !(Cow(t.value) && write) &&
        st.total < MAX_MAPPED_PAGES && FirstFree(st.used).None?) ==> r == st) &&
      ((t.Some? && !Present(t.value) && !Swapped(t.value) && !(Cow(t.value) && write) &&
        st.total >= MAX_MAPPED_PAGES && SwapOut(st, Victim(st.total)).1 < 0) ==> r == st)
  {
  }

  /**
   * A page swapped out of kernel_pml4 and then touched: the fault swaps
   * it back in, so va names a new frame holding the page's old words, the
   * slot is free again and the counter is back where it was.
   */
  lemma FaultSwapsBackIn(st: VmState, va: u64, errorCode: u64)
    requires Wf(st) && st.kernelPml4.Some? && WalkSound(st, st.kernelPml4.value, va) && InUse(st, 0)
    requires Translate(st.mem, st.hhdm, st.kernelPml4.value, va).Some? && Present(Translate(st.mem, st.hhdm, st.kernelPml4.value, va).value)
    requires var data := TableOf(Translate(st.mem, st.hhdm, st.kernelPml4.value, va).value, st.hhdm);
      0 < data < |st.used| && InUse(st, data) && data !in Walk(st.mem, st.hhdm, st.kernelPml4.value, va)
    requires FreeSlot(st).Some?
    ensures var (s1, slot) := SwapOut(st, va);
      FaultDefined(s1, va) && FirstFree(s1.used).Some? &&
      var r := HandleFault(s1, va, errorCode);
      var f := FirstFree(s1.used).value;
      Translate(r.mem, r.hhdm, st.kernelPml4.value, va) == Some(FrameEntry(f, st.hhdm)) &&
      Read(r.mem, f) == Read(st.mem, TableOf(Translate(st.mem, st.hhdm, st.kernelPml4.value, va).value, st.hhdm)) &&
      r.swapUsed == st.swapUsed && r.total == st.total
  {
    var k := st.kernelPml4.value;
    SwapOutThenIn(st, va);
    SwapOutStores(st, va);
    var (s1, slot) := SwapOut(st, va);
    SwapEntryDecodes(slot);
    assert Translate(s1.mem, s1.hhdm, k, va) == Some(SwapEntry(slot));
    assert HandleFault(s1, va, errorCode) == SwapIn(s1, va, slot).0;
  }
}
